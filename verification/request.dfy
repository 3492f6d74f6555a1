/** The request side of SocketConnection: reading the header block line by
    line (readHTTPHeader, readHTTPHeaderLine), taking its first line the way
    java.util.Scanner.nextLine does, and splitting that line on runs of
    whitespace the way String.split("\\s+") does. */
module Request {
  import opened JavaString

  /** What one BufferedReader.readLine call yields: a line without its
      terminator, or null at the end of the stream. */
  datatype Line = Text(s: string) | EndOfStream

  /** The string a read line contributes before its terminator; Java's
      string concatenation turns a null into "null". */
  function LineText(l: Line): string {
    match l
    case Text(s) => s
    case EndOfStream => "null"
  }

  function Texts(ls: seq<Line>): seq<string> {
    seq(|ls|, k requires 0 <= k < |ls| => LineText(ls[k]))
  }

  /** The stream eventually delivers the empty line that ends a header block. */
  predicate HasBlank(ls: seq<Line>) {
    exists k :: 0 <= k < |ls| && ls[k] == Text("")
  }

  /** The lines the reader consumes: everything up to and including the first
      empty line. */
  function HeaderLines(ls: seq<Line>): (r: seq<Line>)
    ensures |r| <= |ls| && r == ls[..|r|]
    ensures forall k :: 0 <= k < |r| - 1 ==> r[k] != Text("")
    ensures HasBlank(ls) ==> |r| > 0 && r[|r| - 1] == Text("")
    decreases |ls|
  {
    if ls == [] then []
    else if ls[0] == Text("") then [ls[0]]
    else [ls[0]] + HeaderLines(ls[1..])
  }

  /** The header text the reader accumulates: each consumed line followed by
      "\r\n". */
  function HeaderMessage(ls: seq<Line>): string {
    Terminated(Texts(HeaderLines(ls)), CRLF)
  }

  /** readHTTPHeader: append each line read plus "\r\n" until the appended
      piece is "\r\n" itself. The source loops for ever if the stream ends
      without an empty line (readLine keeps returning null), so the stream is
      required to hold one. */
  method ReadHTTPHeader(lines: seq<Line>) returns (message: string)
    requires HasBlank(lines)
    ensures message == HeaderMessage(lines)
  {
    ghost var header := HeaderLines(lines);
    message := "";
    var line := "";
    var i := 0;
    while line != CRLF
      invariant i <= |header| <= |lines|
      invariant message == Terminated(Texts(lines[..i]), CRLF)
      invariant line == CRLF <==> (i > 0 && lines[i - 1] == Text(""))
      decreases |lines| - i
    {
      HeaderIncomplete(lines, i);
      line := LineText(lines[i]) + CRLF;
      BlankLineRead(lines[i]);
      ReadStep(lines, i);
      message := message + line;
      i := i + 1;
    }
    HeaderComplete(lines, i);
  }

  /** The piece appended for a line is "\r\n" alone exactly for the empty line. */
  lemma BlankLineRead(l: Line)
    ensures LineText(l) + CRLF == CRLF <==> l == Text("")
  {
    var piece := LineText(l) + CRLF;
    assert |piece| == |LineText(l)| + 2;
    if |piece| == 2 {
      assert LineText(l) == piece[..0];
    }
  }

  lemma ReadStep(lines: seq<Line>, i: nat)
    requires i < |lines|
    ensures Terminated(Texts(lines[..i + 1]), CRLF)
         == Terminated(Texts(lines[..i]), CRLF) + (LineText(lines[i]) + CRLF)
  {
    assert Texts(lines[..i + 1])[..i] == Texts(lines[..i]);
  }

  /** Before the empty line has been read, another header line remains. */
  lemma HeaderIncomplete(lines: seq<Line>, i: nat)
    requires HasBlank(lines)
    requires i <= |HeaderLines(lines)|
    requires !(i > 0 && lines[i - 1] == Text(""))
    ensures i < |HeaderLines(lines)|
  {
  }

  /** Once the empty line has been read, exactly the header lines have been. */
  lemma HeaderComplete(lines: seq<Line>, i: nat)
    requires HasBlank(lines)
    requires i <= |HeaderLines(lines)|
    requires i > 0 && lines[i - 1] == Text("")
    ensures lines[..i] == HeaderLines(lines)
  {
    var header := HeaderLines(lines);
    assert header[i - 1] == lines[i - 1];
  }

  /** The accumulated message always ends in "\r\n"; it is "\r\n\r\n"-terminated
      as soon as one line precedes the empty one, and is "\r\n" alone when the
      first line read is empty. */
  lemma HeaderMessageEnds(lines: seq<Line>)
    requires HasBlank(lines)
    ensures EndsWith(HeaderMessage(lines), CRLF)
    ensures |HeaderLines(lines)| >= 2 ==> EndsWith(HeaderMessage(lines), CRLF + CRLF)
    ensures lines[0] == Text("") ==> HeaderMessage(lines) == CRLF
  {
    var ts := Texts(HeaderLines(lines));
    var n := |ts|;
    assert ts[n - 1] == "";
    var m := Terminated(ts[..n - 1], CRLF);
    assert HeaderMessage(lines) == m + "" + CRLF;
    assert m + "" == m;
    EndsWithAppend(m, CRLF);
    if n >= 2 {
      assert ts[..n - 1][..n - 2] == ts[..n - 2];
      EndsWithAppend(Terminated(ts[..n - 2], CRLF) + ts[n - 2], CRLF);
      EndsWithTwice(m, CRLF);
    }
    if lines[0] == Text("") {
      assert n == 1;
      assert ts[..0] == [];
    }
  }

  /** readLine never returns a line holding a carriage return. */
  predicate ReaderLines(ls: seq<Line>) {
    forall k :: 0 <= k < |ls| ==> '\r' !in LineText(ls[k])
  }

  /** Cutting the accumulated message at every "\r\n" gives back exactly the
      lines that were read, then the empty remainder after the final
      terminator. */
  lemma HeaderMessageSplits(lines: seq<Line>)
    requires HasBlank(lines) && ReaderLines(lines)
    ensures Split(HeaderMessage(lines), CRLF) == Texts(HeaderLines(lines)) + [""]
  {
    var ts := Texts(HeaderLines(lines));
    TerminatedIsJoin(ts, "", CRLF);
    assert HeaderMessage(lines) + "" == HeaderMessage(lines);
    forall k | 0 <= k < |ts + [""]| ensures CRLF[0] !in (ts + [""])[k] {
      if k < |ts| {
        assert HeaderLines(lines)[k] == lines[k];
      }
    }
    SplitJoin(ts + [""], CRLF);
  }

  /** The characters at which java.util.Scanner ends a line. */
  predicate IsLineSeparator(c: char) {
    c == '\n' || c == '\r' || c == '\U{85}' || c == '\U{2028}' || c == '\U{2029}'
  }

  /** Scanner.nextLine on the whole message, or "" when the message is empty:
      the longest prefix holding no line separator. */
  function FirstLine(s: string): (r: string)
    ensures |r| <= |s| && r == s[..|r|]
    ensures forall i :: 0 <= i < |r| ==> !IsLineSeparator(r[i])
    ensures |r| < |s| ==> IsLineSeparator(s[|r|])
    decreases |s|
  {
    if s == [] || IsLineSeparator(s[0]) then [] else [s[0]] + FirstLine(s[1..])
  }

  /** The request line the server tokenises is the first line it read, as long
      as that line holds none of Scanner's extra separators. */
  lemma FirstLineOfHeader(lines: seq<Line>)
    requires HasBlank(lines)
    requires forall i :: 0 <= i < |LineText(lines[0])| ==> !IsLineSeparator(LineText(lines[0])[i])
    ensures FirstLine(HeaderMessage(lines)) == LineText(lines[0])
  {
    var ts := Texts(HeaderLines(lines));
    TerminatedFirst(ts, CRLF);
    FirstLineBefore(ts[0], CRLF + Terminated(ts[1..], CRLF));
  }

  lemma {:induction false} FirstLineBefore(t: string, rest: string)
    requires forall i :: 0 <= i < |t| ==> !IsLineSeparator(t[i])
    requires rest == [] || IsLineSeparator(rest[0])
    ensures FirstLine(t + rest) == t
    decreases |t|
  {
    if t == [] {
      assert t + rest == rest;
    } else {
      assert (t + rest)[1..] == t[1..] + rest;
      FirstLineBefore(t[1..], rest);
    }
  }

  /** Java's `\s`: space, tab, line feed, vertical tab, form feed, carriage
      return. */
  predicate IsSpace(c: char) {
    c == ' ' || c == '\t' || c == '\n' || c == '\U{B}' || c == '\U{C}' || c == '\r'
  }

  predicate AllSpace(s: string) {
    forall i :: 0 <= i < |s| ==> IsSpace(s[i])
  }

  /** A token a whitespace split can produce away from the front: non-empty and
      free of whitespace. */
  predicate IsWord(w: string) {
    |w| > 0 && forall i :: 0 <= i < |w| ==> !IsSpace(w[i])
  }

  /** Length of the run of non-whitespace characters at the front of `s`. */
  function WordLength(s: string): (n: nat)
    ensures n <= |s|
    ensures forall i :: 0 <= i < n ==> !IsSpace(s[i])
    ensures n < |s| ==> IsSpace(s[n])
    decreases |s|
  {
    if s == [] || IsSpace(s[0]) then 0 else 1 + WordLength(s[1..])
  }

  /** The maximal runs of non-whitespace characters, left to right. */
  function Words(s: string): (r: seq<string>)
    ensures forall k :: 0 <= k < |r| ==> IsWord(r[k])
    ensures |r| == 0 <==> AllSpace(s)
    decreases |s|
  {
    if s == [] then []
    else if IsSpace(s[0]) then Words(s[1..])
    else
      var n := WordLength(s);
      [s[..n]] + Words(s[n..])
  }

  /** `line.split("\\s+")`: a line without whitespace (the empty line
      included) is its own single token; a line of whitespace only gives no
      tokens; otherwise leading whitespace yields an empty first token and
      trailing whitespace yields none. */
  function Tokens(line: string): (r: seq<string>)
    ensures forall k :: 1 <= k < |r| ==> IsWord(r[k])
    ensures (|r| > 0 && r[0] == "") <==> (line == [] || (IsSpace(line[0]) && !AllSpace(line)))
    ensures |r| == 0 <==> line != [] && AllSpace(line)
    ensures line == [] ==> r == [""]
  {
    if line == [] then [""]
    else if AllSpace(line) then []
    else if IsSpace(line[0]) then [""] + Words(line)
    else Words(line)
  }

  /** A request line too short for the token the server indexes: in the
      source an ArrayIndexOutOfBoundsException that ends the connection's
      thread before anything is written. */
  datatype ParseError = MalformedRequest(tokenCount: nat)

  /** The tokens of a header message's first line. */
  function RequestTokens(message: string): seq<string> {
    Tokens(FirstLine(message))
  }

  lemma {:induction false} WordLengthOf(w: string, rest: string)
    requires IsWord(w)
    requires rest == [] || IsSpace(rest[0])
    ensures WordLength(w + rest) == |w|
    decreases |w|
  {
    if |w| > 1 {
      assert (w + rest)[1..] == w[1..] + rest;
      WordLengthOf(w[1..], rest);
    } else {
      assert (w + rest)[1..] == rest;
    }
  }

  /** Whitespace in front of a line contributes no word. */
  lemma {:induction false} WordsSkipSpace(sp: string, s: string)
    requires AllSpace(sp)
    ensures Words(sp + s) == Words(s)
    decreases |sp|
  {
    if sp == [] {
      assert sp + s == s;
    } else {
      assert (sp + s)[1..] == sp[1..] + s;
      WordsSkipSpace(sp[1..], s);
    }
  }

  /** A word that runs up to whitespace or to the end of the line is the next
      word, and the words of the rest follow it. */
  lemma WordsCons(w: string, rest: string)
    requires IsWord(w)
    requires rest == [] || IsSpace(rest[0])
    ensures Words(w + rest) == [w] + Words(rest)
  {
    WordLengthOf(w, rest);
    assert (w + rest)[..|w|] == w;
    assert (w + rest)[|w|..] == rest;
  }

  /** Splitting words joined by single spaces gives the words back. */
  lemma {:induction false} WordsOfJoin(ws: seq<string>)
    requires forall k :: 0 <= k < |ws| ==> IsWord(ws[k])
    ensures Words(Join(ws, " ")) == ws
    decreases |ws|
  {
    if |ws| == 1 {
      WordLengthOf(ws[0], "");
      assert ws[0] + "" == ws[0];
      assert ws[0][|ws[0]|..] == [];
    } else if |ws| > 1 {
      var w, rest := ws[0], Join(ws[1..], " ");
      var s := w + " " + rest;
      WordLengthOf(w, " " + rest);
      assert s == w + (" " + rest);
      assert s[..|w|] == w;
      assert s[|w|..] == " " + rest;
      assert (" " + rest)[1..] == rest;
      WordsOfJoin(ws[1..]);
    }
  }

  /** A well-formed request line "<method> <target> <protocol>" tokenises into
      exactly its three parts. */
  lemma RequestLineTokens(method_: string, target: string, protocol: string)
    requires IsWord(method_) && IsWord(target) && IsWord(protocol)
    ensures Tokens(method_ + " " + target + " " + protocol) == [method_, target, protocol]
  {
    var ws := [method_, target, protocol];
    assert Join(ws[2..], " ") == protocol;
    assert Join(ws[1..], " ") == target + " " + protocol;
    assert Join(ws, " ") == method_ + " " + target + " " + protocol;
    WordsOfJoin(ws);
    var line := method_ + " " + target + " " + protocol;
    assert line[0] == method_[0];
  }

  /** A request line as split("\\s+") sees it: whitespace runs of any length
      and kind between the three parts, any trailing whitespace (it yields no
      token), and leading whitespace, which yields an empty first token. */
  lemma RequestLineSpaced(lead: string, method_: string, sp1: string, target: string, sp2: string,
                          protocol: string, trail: string)
    requires AllSpace(lead) && AllSpace(trail)
    requires AllSpace(sp1) && |sp1| > 0 && AllSpace(sp2) && |sp2| > 0
    requires IsWord(method_) && IsWord(target) && IsWord(protocol)
    ensures Tokens(lead + method_ + sp1 + target + sp2 + protocol + trail)
         == (if lead == [] then [] else [""]) + [method_, target, protocol]
  {
    var body := method_ + (sp1 + (target + (sp2 + (protocol + trail))));
    SpacedWords(method_, sp1, target, sp2, protocol, trail);
    assert lead + method_ + sp1 + target + sp2 + protocol + trail == lead + body;
    TokensAfterLead(lead, body);
  }

  lemma SpacedWords(method_: string, sp1: string, target: string, sp2: string, protocol: string, trail: string)
    requires AllSpace(trail)
    requires AllSpace(sp1) && |sp1| > 0 && AllSpace(sp2) && |sp2| > 0
    requires IsWord(method_) && IsWord(target) && IsWord(protocol)
    ensures Words(method_ + (sp1 + (target + (sp2 + (protocol + trail))))) == [method_, target, protocol]
  {
    var tail := protocol + trail;
    WordsCons(protocol, trail);
    WordsSkipSpace(sp2, tail);
    WordsCons(target, sp2 + tail);
    WordsSkipSpace(sp1, target + (sp2 + tail));
    WordsCons(method_, sp1 + (target + (sp2 + tail)));
  }

  /** Leading whitespace before a word shows up as one empty token. */
  lemma TokensAfterLead(lead: string, body: string)
    requires AllSpace(lead)
    requires body != [] && !IsSpace(body[0])
    ensures Tokens(lead + body) == (if lead == [] then [] else [""]) + Words(body)
  {
    WordsSkipSpace(lead, body);
    var line := lead + body;
    if lead == [] {
      assert line == body;
    } else {
      assert line[0] == lead[0];
      assert line[|lead|] == body[0];
    }
  }
}
