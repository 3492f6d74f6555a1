/** The response side of SocketConnection: the header headerBuilder writes,
    the GET/HEAD dispatch in handleConnection, and the whole request-to-
    response pipeline for one connection. */
module Response {
  import opened Wrappers
  import opened JavaString
  import opened Files
  import opened Request
  import opened Pages
  import opened Resolver

  /** MIME type chosen from the target exactly as received. */
  function ContentType(target: string): (r: string)
    ensures r == (if EndsWith(target, ".txt") then "text/plain" else "text/html")
  {
    if EndsWith(target, ".txt") then "text/plain"
    else if EndsWith(target, ".html") then "text/html"
    else "text/html"
  }

  /** The header for a protocol token and a target: the status line, one
      Content-Type line and a blank line. */
  function Header(protocol: string, target: string): string {
    protocol + " 200 OK\r\n" + "Content-Type: " + ContentType(target) + "\r\n" + "\r\n"
  }

  /** The header for a whole message; the protocol is the third token of the
      first line, the target the second. */
  function ResponseHeader(message: string): Result<string, ParseError> {
    var tokens := RequestTokens(message);
    if |tokens| < 3 then Err(MalformedRequest(|tokens|)) else Ok(Header(tokens[2], tokens[1]))
  }

  /** headerBuilder: the header string, built by successive reassignment. */
  method HeaderBuilder(message: string) returns (header: Result<string, ParseError>)
    ensures header == ResponseHeader(message)
  {
    var firstLineBroken := Tokens(FirstLine(message));
    if |firstLineBroken| < 3 {
      return Err(MalformedRequest(|firstLineBroken|));
    }
    var text := firstLineBroken[2] + " 200 OK\r\n";
    if EndsWith(firstLineBroken[1], ".txt") {
      text := text + "Content-Type: text/plain" + "\r\n";
      assert "Content-Type: text/plain" == "Content-Type: " + "text/plain";
    } else if EndsWith(firstLineBroken[1], ".html") {
      text := text + "Content-Type: text/html" + "\r\n";
      assert "Content-Type: text/html" == "Content-Type: " + "text/html";
    } else {
      text := text + "Content-Type: text/html" + "\r\n";
      assert "Content-Type: text/html" == "Content-Type: " + "text/html";
    }
    assert text == firstLineBroken[2] + " 200 OK\r\n" + ("Content-Type: " + ContentType(firstLineBroken[1])) + "\r\n";
    text := text + "\r\n";
    HeaderRegroup(firstLineBroken[2], ContentType(firstLineBroken[1]));
    header := Ok(text);
  }

  /** The regrouping HeaderBuilder needs, stated over abstract strings: in
      the method's own proof obligation the literal concatenations make it
      costly. */
  lemma HeaderRegroup(protocol: string, mime: string)
    ensures protocol + " 200 OK\r\n" + ("Content-Type: " + mime) + "\r\n" + "\r\n"
         == protocol + " 200 OK\r\n" + "Content-Type: " + mime + "\r\n" + "\r\n"
  {
  }

  lemma JoinFour(a: string, b: string, c: string, d: string, t: string)
    ensures Join([a, b, c, d], t) == a + t + b + t + c + t + d
  {
    assert [c, d][1..] == [d];
    assert Join([d], t) == d;
    assert [b, c, d][1..] == [c, d];
    assert Join([c, d], t) == c + t + d;
    assert [a, b, c, d][1..] == [b, c, d];
    assert Join([b, c, d], t) == b + t + (c + t + d);
  }

  /** The header's lines joined by "\r\n": status, Content-Type, the blank
      line, and the empty remainder after its terminator. */
  lemma HeaderIsJoin(protocol: string, target: string)
    ensures Header(protocol, target)
         == Join([protocol + " 200 OK", "Content-Type: " + ContentType(target), "", ""], CRLF)
  {
    JoinFour(protocol + " 200 OK", "Content-Type: " + ContentType(target), "", "", CRLF);
    assert " 200 OK" + "\r\n" == " 200 OK\r\n";
  }

  /** The header always reports 200, carries exactly one Content-Type line
      (text/plain exactly for ".txt" targets, text/html otherwise) and ends
      with a blank line: cut at "\r\n" it is those three lines and nothing
      after the final terminator. */
  lemma HeaderShape(protocol: string, target: string)
    requires '\r' !in protocol
    ensures Split(Header(protocol, target), CRLF)
         == [protocol + " 200 OK", "Content-Type: " + ContentType(target), "", ""]
    ensures ContentType(target) == "text/plain" <==> EndsWith(target, ".txt")
    ensures ContentType(target) == "text/html" <==> !EndsWith(target, ".txt")
  {
    var lines := [protocol + " 200 OK", "Content-Type: " + ContentType(target), "", ""];
    HeaderIsJoin(protocol, target);
    forall k | 0 <= k < |lines| ensures CRLF[0] !in lines[k] {
      if k == 0 {
        assert '\r' !in " 200 OK";
      }
    }
    SplitJoin(lines, CRLF);
  }

  /** The header opens with the 200 status line and closes with an empty line. */
  lemma HeaderEnds(protocol: string, target: string)
    ensures StartsWith(Header(protocol, target), protocol + " 200 OK\r\n")
    ensures EndsWith(Header(protocol, target), CRLF + CRLF)
  {
    var status := protocol + " 200 OK\r\n";
    var front := status + "Content-Type: " + ContentType(target);
    assert Header(protocol, target) == front + CRLF + CRLF;
    EndsWithAppend(front, CRLF);
    EndsWithTwice(front + CRLF, CRLF);
    StartsWithAppend(status, "Content-Type: " + ContentType(target) + CRLF + CRLF);
  }

  /** The text Java appends for a body that may be null. */
  function BodyText(file: Option<string>): string {
    match file
    case Some(s) => s
    case None => "null"
  }

  /** handleConnection's dispatch: only the header for a message starting with
      "HEAD", the header and the body for one starting with "GET" and for any
      other. The test is on the raw message, not on the method token. */
  function Dispatch(message: string, header: string, file: Option<string>): string {
    if StartsWith(message, "GET") then header + BodyText(file)
    else if StartsWith(message, "HEAD") then header
    else header + BodyText(file)
  }

  /** The response text for a header message; htmlToReturn runs first, so a
      first line of fewer than two tokens fails there and one of exactly two
      fails in headerBuilder. */
  function Respond(fs: FileSystem, message: string): Result<string, ParseError> {
    var tokens := RequestTokens(message);
    if |tokens| < 3 then Err(MalformedRequest(|tokens|))
    else Ok(Dispatch(message, Header(tokens[2], tokens[1]), ResolvedBody(fs, tokens[1])))
  }

  /** handleConnection, up to the println: read the header block, compute the
      body and the header, and dispatch on the method. */
  method HandleConnection(fs: FileSystem, request: seq<Line>) returns (response: Result<string, ParseError>)
    requires HasBlank(request)
    ensures response == Respond(fs, HeaderMessage(request))
  {
    var message := ReadHTTPHeader(request);
    var file := HtmlToReturn(fs, message);
    if file.Err? {
      return Err(file.error);
    }
    var header := HeaderBuilder(message);
    if header.Err? {
      return Err(header.error);
    }
    response := Ok(Dispatch(message, header.value, file.value));
  }

  /** A response exists exactly when the first line has at least three tokens. */
  lemma MalformedRequests(fs: FileSystem, message: string)
    ensures Respond(fs, message).Err? <==> |RequestTokens(message)| < 3
  {
  }

  /** HEAD drops the body, every other message carries it; in both cases the
      status line says 200 whatever the resolution found. */
  lemma HeadOmitsBody(fs: FileSystem, message: string)
    requires |RequestTokens(message)| >= 3
    ensures var tokens := RequestTokens(message);
      var header := Header(tokens[2], tokens[1]);
      && (StartsWith(message, "HEAD") ==> Respond(fs, message) == Ok(header))
      && (!StartsWith(message, "HEAD") ==> Respond(fs, message) == Ok(header + BodyText(ResolvedBody(fs, tokens[1]))))
  {
    if StartsWith(message, "HEAD") {
      assert message[0] == 'H';
      assert !StartsWith(message, "GET") by {
        assert "GET"[0] == 'G';
      }
    }
  }

  /** The request "<method> <target> <protocol>" followed by the same further
      header lines. */
  function RequestFor(method_: string, target: string, protocol: string, rest: seq<Line>): seq<Line> {
    [Text(method_ + " " + target + " " + protocol)] + rest
  }

  lemma RequestLineRead(method_: string, target: string, protocol: string, rest: seq<Line>)
    requires IsWord(method_) && IsWord(target) && IsWord(protocol)
    requires forall i :: 0 <= i < |method_ + " " + target + " " + protocol| ==> !IsLineSeparator((method_ + " " + target + " " + protocol)[i])
    requires HasBlank(rest)
    ensures HasBlank(RequestFor(method_, target, protocol, rest))
    ensures RequestTokens(HeaderMessage(RequestFor(method_, target, protocol, rest))) == [method_, target, protocol]
    ensures StartsWith(HeaderMessage(RequestFor(method_, target, protocol, rest)), method_)
  {
    var lines := RequestFor(method_, target, protocol, rest);
    var line := method_ + " " + target + " " + protocol;
    RequestForHasBlank(line, rest);
    FirstLineOfHeader(lines);
    RequestLineTokens(method_, target, protocol);
    PrefixOfPrefix(HeaderMessage(lines), line, method_);
  }

  lemma RequestForHasBlank(line: string, rest: seq<Line>)
    requires HasBlank(rest)
    ensures HasBlank([Text(line)] + rest)
  {
    var k :| 0 <= k < |rest| && rest[k] == Text("");
    assert ([Text(line)] + rest)[k + 1] == Text("");
  }

  lemma PrefixOfPrefix(m: string, line: string, word: string)
    requires FirstLine(m) == line
    requires StartsWith(line, word)
    ensures StartsWith(m, word)
  {
    assert m[..|line|] == line;
    assert m[..|word|] == line[..|word|];
  }

  /** A HEAD request gets exactly the header its GET counterpart starts with:
      same status line, same Content-Type, and no body. */
  lemma HeadMatchesGet(fs: FileSystem, target: string, protocol: string, rest: seq<Line>)
    requires IsWord(target) && IsWord(protocol)
    requires forall i :: 0 <= i < |target| ==> !IsLineSeparator(target[i])
    requires forall i :: 0 <= i < |protocol| ==> !IsLineSeparator(protocol[i])
    requires HasBlank(rest)
    ensures var get := Respond(fs, HeaderMessage(RequestFor("GET", target, protocol, rest)));
      var head := Respond(fs, HeaderMessage(RequestFor("HEAD", target, protocol, rest)));
      && head == Ok(Header(protocol, target))
      && get == Ok(Header(protocol, target) + BodyText(ResolvedBody(fs, target)))
  {
    assert IsWord("GET") && IsWord("HEAD");
    NoSeparators("GET", target, protocol);
    NoSeparators("HEAD", target, protocol);
    RequestLineRead("GET", target, protocol, rest);
    RequestLineRead("HEAD", target, protocol, rest);
    var headMessage := HeaderMessage(RequestFor("HEAD", target, protocol, rest));
    HeadOmitsBody(fs, headMessage);
  }

  lemma NoSeparators(method_: string, target: string, protocol: string)
    requires IsWord(method_)
    requires forall i :: 0 <= i < |target| ==> !IsLineSeparator(target[i])
    requires forall i :: 0 <= i < |protocol| ==> !IsLineSeparator(protocol[i])
    requires forall i :: 0 <= i < |method_| ==> !IsLineSeparator(method_[i])
    ensures forall i :: 0 <= i < |method_ + " " + target + " " + protocol| ==> !IsLineSeparator((method_ + " " + target + " " + protocol)[i])
  {
    var line := method_ + " " + target + " " + protocol;
    forall i | 0 <= i < |line| ensures !IsLineSeparator(line[i]) {
      if i < |method_| {
        assert line[i] == method_[i];
      } else if i == |method_| {
        assert line[i] == ' ';
      } else if i < |method_| + 1 + |target| {
        assert line[i] == target[i - |method_| - 1];
      } else if i == |method_| + 1 + |target| {
        assert line[i] == ' ';
      } else {
        assert line[i] == protocol[i - |method_| - 2 - |target|];
      }
    }
  }
}

/** Two requests worked through the model: a direct ".html" target and a
    directory without an index file. */
module Examples {
  import opened Wrappers
  import opened JavaString
  import opened Files
  import opened Request
  import opened Pages
  import opened Resolver
  import opened Response

  /** "GET /index.html HTTP/1.1": the target ends in ".html", so htmlToReturn
      gives null and the body is the text "null", whatever the file holds. */
  lemma IndexHtmlRequest(fs: FileSystem)
    ensures Respond(fs, HeaderMessage([Text("GET /index.html HTTP/1.1"), Text("")]))
         == Ok(Header("HTTP/1.1", "/index.html") + "null")
    ensures ContentType("/index.html") == "text/html"
  {
    var target, protocol := "/index.html", "HTTP/1.1";
    IndexRequestLine();
    assert RequestFor("GET", target, protocol, [Text("")]) == [Text("GET /index.html HTTP/1.1"), Text("")];
    assert [Text("")][0] == Text("");
    HeadMatchesGet(fs, target, protocol, [Text("")]);
    IndexTarget();
  }

  lemma IndexRequestLine()
    ensures IsWord("/index.html") && IsWord("HTTP/1.1")
    ensures forall i :: 0 <= i < |"/index.html"| ==> !IsLineSeparator("/index.html"[i])
    ensures forall i :: 0 <= i < |"HTTP/1.1"| ==> !IsLineSeparator("HTTP/1.1"[i])
    ensures "GET" + " " + "/index.html" + " " + "HTTP/1.1" == "GET /index.html HTTP/1.1"
  {
  }

  lemma IndexTarget()
    ensures IsDirectTarget(Normalize("/index.html"))
    ensures !EndsWith("/index.html", ".txt")
  {
    var target := "/index.html";
    assert target[1] == 'i';
    assert Normalize(target) == "webroot" + target;
    var path := "webroot" + target;
    assert path[|path| - 5..] == target[|target| - 5..];
    assert target[|target| - 5..] == ".html";
    assert target[|target| - 3] == 't' && ".txt"[1] == 't';
  }

  /** "GET /docs HTTP/1.1" for a directory "webroot/docs" holding "a.txt"
      and "b.txt" and no index file: the listing titled "docs", with one
      anchor per entry in enumeration order, each linking to the entry's
      path without "webroot" and labelled with its bare name. */
  lemma DocsRequest(fs: FileSystem)
    requires !Exists(fs, "webroot/docs/index.html") && IsDirectory(fs, "webroot/docs")
    requires Entries(fs, "webroot/docs") == ["webroot/docs/a.txt", "webroot/docs/b.txt"]
    ensures Respond(fs, HeaderMessage([Text("GET /docs HTTP/1.1"), Text("")]))
         == Ok(Header("HTTP/1.1", "/docs")
               + HtmlPage("docs", [Anchor("/docs/a.txt", "a"), Anchor("/docs/b.txt", "b")]))
    ensures ContentType("/docs") == "text/html"
  {
    var target, protocol := "/docs", "HTTP/1.1";
    DocsRequestLine();
    assert RequestFor("GET", target, protocol, [Text("")]) == [Text("GET /docs HTTP/1.1"), Text("")];
    assert [Text("")][0] == Text("");
    HeadMatchesGet(fs, target, protocol, [Text("")]);
    DocsTarget();
    DocsIndexPath();
    ResolutionOrder(fs, target);
    DocsListing(fs);
  }

  lemma DocsRequestLine()
    ensures IsWord("/docs") && IsWord("HTTP/1.1")
    ensures forall i :: 0 <= i < |"/docs"| ==> !IsLineSeparator("/docs"[i])
    ensures forall i :: 0 <= i < |"HTTP/1.1"| ==> !IsLineSeparator("HTTP/1.1"[i])
    ensures "GET" + " " + "/docs" + " " + "HTTP/1.1" == "GET /docs HTTP/1.1"
  {
  }

  lemma DocsTarget()
    ensures Normalize("/docs") == "webroot/docs"
    ensures !IsDirectTarget("webroot/docs")
    ensures !EndsWith("/docs", ".txt")
  {
    assert "/docs"[1] == 'd';
    assert "webroot" + "/docs" == "webroot/docs";
    assert "webroot/docs"[11] == 's';
  }

  lemma DocsIndexPath()
    ensures "webroot/docs" + "/index.html" == "webroot/docs/index.html"
  {
  }

  lemma DocsListing(fs: FileSystem)
    requires Entries(fs, "webroot/docs") == ["webroot/docs/a.txt", "webroot/docs/b.txt"]
    ensures DirectoryListing(fs, "webroot/docs", "/docs")
         == HtmlPage("docs", [Anchor("/docs/a.txt", "a"), Anchor("/docs/b.txt", "b")])
  {
    DocsTitle();
    DocsAnchors();
  }

  lemma DocsAnchors()
    ensures AnchorLines(["webroot/docs/a.txt", "webroot/docs/b.txt"], "/docs")
         == [Anchor("/docs/a.txt", "a"), Anchor("/docs/b.txt", "b")]
  {
    AnchorPair("webroot/docs/a.txt", "webroot/docs/b.txt", "/docs");
    DocsNames();
    DocsAnchor("a", "webroot/docs/a.txt", "/docs/a.txt");
    DocsAnchor("b", "webroot/docs/b.txt", "/docs/b.txt");
  }

  lemma AnchorPair(x: string, y: string, previousDirectory: string)
    ensures AnchorLines([x, y], previousDirectory)
         == [AnchorLine(x, previousDirectory), AnchorLine(y, previousDirectory)]
  {
  }

  lemma DocsNames()
    ensures PlainName("a") && PlainName("b")
    ensures "webroot/docs/a.txt" == "webroot/docs/" + "a" + ".txt" && "/docs/a.txt" == "/docs/" + "a" + ".txt"
    ensures "webroot/docs/b.txt" == "webroot/docs/" + "b" + ".txt" && "/docs/b.txt" == "/docs/" + "b" + ".txt"
  {
  }

  lemma DocsAnchor(name: string, page: string, href: string)
    requires PlainName(name)
    requires page == "webroot/docs/" + name + ".txt" && href == "/docs/" + name + ".txt"
    ensures AnchorLine(page, "/docs") == Anchor(href, name)
  {
    DocsHref(name);
    DocsLabel(name);
  }

  lemma DocsTitle()
    ensures ListingTitle("/docs") == "docs"
  {
    RemoveAllFront("", "/", "docs");
    assert "" + "/" + "docs" == "/docs";
    RemoveAllLone("docs", "/");
  }

  /** A file name that line 259 gives back unchanged in the listing reached by
      "/docs": it holds no "/", no "webroot" and no ".txt", and does not begin
      with "docs" (which would complete a "/docs" behind the slash). */
  ghost predicate PlainName(name: string) {
    '/' !in name && !StartsWith(name, "docs")
    && (forall i: nat :: !OccursAt(name, Root, i))
    && (forall i: nat :: !OccursAt(name, ".txt", i))
  }

  /** The link of an entry "webroot/docs/<name>.txt". */
  lemma DocsHref(name: string)
    requires forall i: nat :: !OccursAt(name, Root, i)
    ensures Href("webroot/docs/" + name + ".txt") == "/docs/" + name + ".txt"
  {
    var rest := "/docs/" + name + ".txt";
    assert "webroot/docs/" + name + ".txt" == "" + Root + rest;
    RemoveAllFront("", Root, rest);
    RootAbsent(name);
    RemoveAllAbsent(rest, Root);
  }

  lemma RootAbsent(name: string)
    requires forall i: nat :: !OccursAt(name, Root, i)
    ensures forall i: nat :: !OccursAt("/docs/" + name + ".txt", Root, i)
  {
    NoOccurrenceAcross(name, ".txt", Root);
    forall i: nat | i >= |name| ensures !OccursAt(name + ".txt", Root, i) {
      assert |name + ".txt"| < i + |Root|;
    }
    NoOccurrenceBehind("/docs/", name + ".txt", Root);
    assert "/docs/" + name + ".txt" == "/docs/" + (name + ".txt");
  }

  /** The label of an entry "webroot/docs/<name>.txt" in the listing reached
      by "/docs" is the name itself. */
  lemma DocsLabel(name: string)
    requires PlainName(name)
    ensures Label("webroot/docs/" + name + ".txt", "/docs") == name
  {
    DocsHref(name);
    StripDocs(name);
    NoOccurrenceBehind("/", name, ".txt");
    StripTxt("/" + name);
    StripSlash(name);
  }

  lemma StripDocs(name: string)
    requires '/' !in name && !StartsWith(name, "docs")
    ensures RemoveAll("/docs/" + name + ".txt", "/docs") == "/" + name + ".txt"
  {
    var file := "/" + name + ".txt";
    assert "/docs/" + name + ".txt" == "" + "/docs" + file;
    RemoveAllFront("", "/docs", file);
    DocsAbsent(name);
    RemoveAllAbsent(file, "/docs");
  }

  lemma DocsAbsent(name: string)
    requires '/' !in name && !StartsWith(name, "docs")
    ensures forall i: nat :: !OccursAt("/" + name + ".txt", "/docs", i)
  {
    var m := "/" + name;
    forall i: nat ensures !OccursAt(m, "/docs", i) {
      if i == 0 && 5 <= |m| {
        assert m[0..5][1..] == m[1..5] == name[..4];
      } else if 0 < i && i + 5 <= |m| {
        assert m[i..i + 5][0] == m[i] == name[i - 1];
      }
    }
    NoOccurrenceAcross(m, ".txt", "/docs");
    forall i: nat | i >= |m| ensures !OccursAt(m + ".txt", "/docs", i) {
      assert |m + ".txt"| < i + 5;
    }
  }

  lemma StripTxt(p: string)
    requires forall i: nat :: !OccursAt(p, ".txt", i)
    ensures RemoveAll(p + ".txt", ".txt") == p
  {
    NoOccurrenceAcross(p, ".txt", ".txt");
    assert p + ".txt" == p + ".txt" + "";
    RemoveAllFirst(p, ".txt", "");
  }

  lemma StripSlash(name: string)
    requires '/' !in name
    ensures RemoveAll("/" + name, "/") == name
  {
    assert "/" + name == "" + "/" + name;
    RemoveAllFront("", "/", name);
    RemoveAllLone(name, "/");
  }

  /** A name with dots before ".txt" keeps them: only the final ".txt" goes. */
  lemma DottedLabel()
    ensures Label("webroot/docs/a.b.txt", "/docs") == "a.b"
  {
    assert "webroot/docs/a.b.txt" == "webroot/docs/" + "a.b" + ".txt";
    DocsLabel("a.b");
  }

  /** A name that begins with "docs" loses that part too: line 259 deletes
      the "/docs" it completes behind the slash. */
  lemma DocsPrefixLabel(tail: string)
    requires '/' !in tail
    requires forall i: nat :: !OccursAt(tail, Root, i)
    requires forall i: nat :: !OccursAt(tail, ".txt", i)
    ensures Label("webroot/docs/" + ("docs" + tail) + ".txt", "/docs") == tail
  {
    NoOccurrenceBehind("docs", tail, Root);
    DocsHref("docs" + tail);
    StripDocsTwice(tail);
    StripTxt(tail);
    RemoveAllLone(tail, "/");
  }

  lemma StripDocsTwice(tail: string)
    requires '/' !in tail
    ensures RemoveAll("/docs/" + ("docs" + tail) + ".txt", "/docs") == tail + ".txt"
  {
    assert "/docs/" + ("docs" + tail) + ".txt" == "" + "/docs" + ("" + "/docs" + (tail + ".txt"));
    RemoveAllFront("", "/docs", "" + "/docs" + (tail + ".txt"));
    RemoveAllFront("", "/docs", tail + ".txt");
    RemoveAllLone(tail + ".txt", "/docs");
  }

  lemma DocsifyLabel()
    ensures Label("webroot/docs/docsify.txt", "/docs") == "ify"
  {
    assert "webroot/docs/docsify.txt" == "webroot/docs/" + ("docs" + "ify") + ".txt";
    DocsPrefixLabel("ify");
  }
}
