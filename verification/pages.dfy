/** The two HTML pages the server generates: the directory listing
    (directoryBuilder) and the not-found page (errorBuilder). */
module Pages {
  import opened JavaString
  import opened Files

  const Root: string := "webroot"

  /** The lines every generated page starts with, up to the opening body tag. */
  function HeadLines(title: string): seq<string> {
    ["<html>", "    <head>", "        <title>" + title + "</title>", "    </head>", "    <body>"]
  }

  const TailLines: seq<string> := ["   </body>", "</html>"]

  /** A generated page: its lines joined by "\n", the last one unterminated. */
  function HtmlPage(title: string, body: seq<string>): string {
    Join(HeadLines(title) + body + TailLines, "\n")
  }

  /** Cutting a generated page at "\n" gives back its head, body and tail
      lines, as long as none of them holds a line feed. */
  lemma HtmlPageLines(title: string, body: seq<string>)
    requires '\n' !in title
    requires forall k :: 0 <= k < |body| ==> '\n' !in body[k]
    ensures Split(HtmlPage(title, body), "\n") == HeadLines(title) + body + TailLines
  {
    var all := HeadLines(title) + body + TailLines;
    forall k | 0 <= k < |all| ensures "\n"[0] !in all[k] {
      if k < 5 {
        assert all[k] == HeadLines(title)[k];
        assert k == 2 ==> all[k] == "        <title>" + title + "</title>";
      } else if k < 5 + |body| {
        assert all[k] == body[k - 5];
      }
    }
    SplitJoin(all, "\n");
  }

  lemma TerminatedFive(a: string, b: string, c: string, d: string, e: string, t: string)
    ensures Terminated([a, b, c, d, e], t) == a + t + b + t + c + t + d + t + e + t
  {
    assert [a][..0] == [];
    assert Terminated([a], t) == a + t;
    assert [a, b][..1] == [a];
    assert Terminated([a, b], t) == a + t + b + t;
    assert [a, b, c][..2] == [a, b];
    assert Terminated([a, b, c], t) == a + t + b + t + c + t;
    assert [a, b, c, d][..3] == [a, b, c];
    assert Terminated([a, b, c, d], t) == a + t + b + t + c + t + d + t;
    assert [a, b, c, d, e][..4] == [a, b, c, d];
  }

  /** Lines joined by a separator, split into a terminated front, a
      terminated middle and two final lines. */
  lemma JoinAssembly(front: seq<string>, middle: seq<string>, x: string, y: string, t: string)
    ensures Join(front + middle + [x, y], t)
         == Terminated(front, t) + Terminated(middle, t) + x + t + y
  {
    var closed := middle + [x];
    assert front + closed + [y] == front + middle + [x, y];
    TerminatedIsJoin(front + closed, y, t);
    TerminatedAppend(front, closed, t);
    TerminatedSnoc(middle, x, t);
  }

  lemma TerminatedSnoc(parts: seq<string>, x: string, t: string)
    ensures Terminated(parts + [x], t) == Terminated(parts, t) + x + t
  {
    assert (parts + [x])[..|parts|] == parts;
  }

  lemma HeadText(title: string)
    ensures Terminated(HeadLines(title), "\n")
         == "<html>\n" + "    <head>\n" + "        <title>" + title + "</title>\n" + "    </head>\n" + "    <body>\n"
  {
    var head := HeadLines(title);
    TerminatedFive(head[0], head[1], head[2], head[3], head[4], "\n");
    assert head == [head[0], head[1], head[2], head[3], head[4]];
    assert "<html>" + "\n" == "<html>\n" && "    <head>" + "\n" == "    <head>\n";
    assert "</title>" + "\n" == "</title>\n" && "    </head>" + "\n" == "    </head>\n";
    assert "    <body>" + "\n" == "    <body>\n";
  }

  /** A generated page written out as the source writes its string literals:
      the head, every body line followed by a line feed, then the closing
      tags. */
  lemma HtmlPageText(title: string, body: seq<string>)
    ensures HtmlPage(title, body)
         == "<html>\n" + "    <head>\n" + "        <title>" + title + "</title>\n" + "    </head>\n" + "    <body>\n"
            + Terminated(body, "\n") + "   </body>\n" + "</html>"
  {
    JoinAssembly(HeadLines(title), body, "   </body>", "</html>", "\n");
    HeadText(title);
  }

  /** Title of a listing: the original target without any "/" and then
      without any "webroot". */
  function ListingTitle(previousDirectory: string): string {
    RemoveAll(RemoveAll(previousDirectory, "/"), Root)
  }

  /** Link of an entry: its path without any "webroot". */
  function Href(page: string): string {
    RemoveAll(page, Root)
  }

  /** Text of an entry's link: its path without "webroot", then without the
      original target, then without ".txt", then without any "/". */
  function Label(page: string, previousDirectory: string): string {
    RemoveAll(RemoveAll(RemoveAll(RemoveAll(page, Root), previousDirectory), ".txt"), "/")
  }

  /** One anchor line of a listing, without its line feed. */
  function Anchor(href: string, name: string): string {
    "       <a href=\"" + href + "\">" + name + "</a><br>"
  }

  function AnchorLine(page: string, previousDirectory: string): string {
    Anchor(Href(page), Label(page, previousDirectory))
  }

  function AnchorLines(pages: seq<string>, previousDirectory: string): seq<string> {
    seq(|pages|, k requires 0 <= k < |pages| => AnchorLine(pages[k], previousDirectory))
  }

  /** The listing page for directory `dir`, reached by `previousDirectory`. */
  function DirectoryListing(fs: FileSystem, dir: string, previousDirectory: string): string {
    HtmlPage(ListingTitle(previousDirectory), AnchorLines(Entries(fs, dir), previousDirectory))
  }

  /** The listing written out as directoryBuilder assembles it. */
  lemma ListingText(fs: FileSystem, dir: string, previousDirectory: string)
    ensures DirectoryListing(fs, dir, previousDirectory)
         == "<html>\n" +
            "    <head>\n" +
            "        <title>" + RemoveAll(RemoveAll(previousDirectory, "/"), "webroot") + "</title>\n" +
            "    </head>\n" +
            "    <body>\n"
            + Terminated(AnchorLines(Entries(fs, dir), previousDirectory), "\n") + "   </body>\n</html>"
  {
    var anchors := Terminated(AnchorLines(Entries(fs, dir), previousDirectory), "\n");
    HtmlPageText(ListingTitle(previousDirectory), AnchorLines(Entries(fs, dir), previousDirectory));
    assert "   </body>\n" + "</html>" == "   </body>\n</html>";
  }

  /** One round of directoryBuilder's loop appends the next entry's anchor
      line. */
  lemma ListingStep(head: string, pages: seq<string>, i: nat, previousDirectory: string, line: string)
    requires i < |pages|
    requires line == AnchorLine(pages[i], previousDirectory) + "\n"
    ensures head + Terminated(AnchorLines(pages[..i], previousDirectory), "\n") + line
         == head + Terminated(AnchorLines(pages[..i + 1], previousDirectory), "\n")
  {
    AnchorLinesSnoc(pages, i, previousDirectory);
  }

  lemma AnchorLinesSnoc(pages: seq<string>, i: nat, previousDirectory: string)
    requires i < |pages|
    ensures Terminated(AnchorLines(pages[..i + 1], previousDirectory), "\n")
         == Terminated(AnchorLines(pages[..i], previousDirectory), "\n") + AnchorLine(pages[i], previousDirectory) + "\n"
  {
    assert AnchorLines(pages[..i + 1], previousDirectory) == AnchorLines(pages[..i], previousDirectory) + [AnchorLine(pages[i], previousDirectory)];
    TerminatedSnoc(AnchorLines(pages[..i], previousDirectory), AnchorLine(pages[i], previousDirectory), "\n");
  }

  /** directoryBuilder: the page head, then one anchor line per entry of the
      directory stream in enumeration order, then the closing tags. */
  method DirectoryBuilder(fs: FileSystem, requestHTML: string, previousDirectory: string)
    returns (returnedRequest: string)
    ensures returnedRequest == DirectoryListing(fs, requestHTML, previousDirectory)
  {
    var directory := Entries(fs, requestHTML);
    returnedRequest := "<html>\n" +
      "    <head>\n" +
      "        <title>" + RemoveAll(RemoveAll(previousDirectory, "/"), "webroot") + "</title>\n" +
      "    </head>\n" +
      "    <body>\n";
    ghost var head := returnedRequest;
    for i := 0 to |directory|
      invariant returnedRequest == head + Terminated(AnchorLines(directory[..i], previousDirectory), "\n")
    {
      var page := directory[i];
      var pageURL := RemoveAll(page, "webroot");
      var pageName := RemoveAll(RemoveAll(RemoveAll(RemoveAll(page, "webroot"), previousDirectory), ".txt"), "/");
      var line := "       <a href=\"" + pageURL + "\">" + pageName + "</a><br>\n";
      assert "</a><br>\n" == "</a><br>" + "\n";
      ListingStep(head, directory, i, previousDirectory, line);
      returnedRequest := returnedRequest + line;
    }
    assert directory[..|directory|] == directory;
    ListingText(fs, requestHTML, previousDirectory);
    returnedRequest := returnedRequest + "   </body>\n</html>";
  }

  /** The listing, line by line: the head with the stripped target as title,
      exactly one anchor line per directory entry in enumeration order, and
      the closing tags. */
  lemma ListingLines(fs: FileSystem, dir: string, previousDirectory: string)
    requires '\n' !in previousDirectory
    requires forall k :: 0 <= k < |Entries(fs, dir)| ==> '\n' !in Entries(fs, dir)[k]
    ensures Split(DirectoryListing(fs, dir, previousDirectory), "\n")
         == HeadLines(ListingTitle(previousDirectory)) + AnchorLines(Entries(fs, dir), previousDirectory) + TailLines
  {
    var es := Entries(fs, dir);
    var title := ListingTitle(previousDirectory);
    RemoveAllKeepsAbsent(previousDirectory, "/", '\n');
    RemoveAllKeepsAbsent(RemoveAll(previousDirectory, "/"), Root, '\n');
    var body := AnchorLines(es, previousDirectory);
    forall k | 0 <= k < |body| ensures '\n' !in body[k] {
      AnchorLineSingle(es[k], previousDirectory);
    }
    HtmlPageLines(title, body);
  }

  lemma AnchorLineSingle(page: string, previousDirectory: string)
    requires '\n' !in page
    ensures '\n' !in AnchorLine(page, previousDirectory)
  {
    RemoveAllKeepsAbsent(page, Root, '\n');
    RemoveAllKeepsAbsent(Href(page), previousDirectory, '\n');
    RemoveAllKeepsAbsent(RemoveAll(Href(page), previousDirectory), ".txt", '\n');
    RemoveAllKeepsAbsent(RemoveAll(RemoveAll(Href(page), previousDirectory), ".txt"), "/", '\n');
  }

  /** Neither a listing's title nor any link text holds a "/". */
  lemma ListingNamesHaveNoSlash(page: string, previousDirectory: string)
    ensures '/' !in ListingTitle(previousDirectory)
    ensures '/' !in Label(page, previousDirectory)
  {
    RemoveCharIsWithout(previousDirectory, '/');
    RemoveAllKeepsAbsent(RemoveAll(previousDirectory, "/"), Root, '/');
    RemoveCharIsWithout(RemoveAll(RemoveAll(Href(page), previousDirectory), ".txt"), '/');
  }

  /** An entry below the document root links to its path with the root
      marker cut off. */
  lemma HrefStripsRoot(rest: string)
    requires forall i: nat :: !OccursAt(rest, Root, i)
    ensures Href(Root + rest) == rest
  {
    var s := Root + rest;
    assert s[..|Root|] == Root;
    assert s[|Root|..] == rest;
    RemoveAllAbsent(rest, Root);
  }

  /** errorBuilder: a fixed page whose title is the target without any "/"
      and whose body says "File not found.". */
  function ErrorBuilder(request: string): string {
    "<html>\n" +
    "    <head>\n" +
    "        <title>" + RemoveAll(request, "/") + "</title>\n" +
    "    </head>\n" +
    "    <body>\n" +
    "       File not found.\n" +
    "   </body>\n" +
    "</html>"
  }

  /** The not-found page is the generated page whose single body line is the
      not-found message and whose title is the target with every "/" deleted
      and nothing else changed. */
  lemma ErrorPageShape(request: string)
    ensures ErrorBuilder(request) == HtmlPage(Without(request, '/'), ["       File not found."])
    ensures '/' !in Without(request, '/')
  {
    RemoveCharIsWithout(request, '/');
    var body := ["       File not found."];
    assert body[..0] == [];
    HtmlPageText(Without(request, '/'), body);
  }

  /** Line by line, the not-found page is its head, the message, and the
      closing tags. */
  lemma ErrorPageLines(request: string)
    requires '\n' !in request
    ensures Split(ErrorBuilder(request), "\n")
         == HeadLines(Without(request, '/')) + ["       File not found."] + TailLines
  {
    ErrorPageShape(request);
    WithoutKeepsAbsent(request, '/', '\n');
    NotFoundLine();
    HtmlPageLines(Without(request, '/'), ["       File not found."]);
  }

  /** Kept apart from ErrorPageLines, whose proof obligation grows costly when
      this literal fact is checked inside it. */
  lemma NotFoundLine()
    ensures forall k :: 0 <= k < |["       File not found."]| ==> '\n' !in ["       File not found."][k]
  {
  }
}
