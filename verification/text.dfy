/** The java.lang.String operations the request pipeline relies on, over
    `seq<char>`: startsWith, endsWith, replace (every non-overlapping
    occurrence, scanned left to right), replaceFirst with a one-character
    pattern, and joining and splitting on a separator. */
module JavaString {

  const CRLF: string := "\r\n"

  predicate StartsWith(s: string, prefix: string) {
    |prefix| <= |s| && s[..|prefix|] == prefix
  }

  predicate EndsWith(s: string, suffix: string) {
    |suffix| <= |s| && s[|s| - |suffix|..] == suffix
  }

  lemma EndsWithAppend(x: string, t: string)
    ensures EndsWith(x + t, t)
  {
    assert (x + t)[|x|..] == t;
  }

  lemma EndsWithTwice(x: string, t: string)
    requires EndsWith(x, t)
    ensures EndsWith(x + t, t + t)
  {
    assert (x + t)[|x + t| - |t + t|..] == x[|x| - |t|..] + t;
  }

  /** `pat` occurs in `s` starting at index `i`. */
  predicate OccursAt(s: string, pat: string, i: nat) {
    i + |pat| <= |s| && s[i..i + |pat|] == pat
  }

  /** `s.replace(pat, "")`: every occurrence of `pat`, found left to right
      without overlap, is deleted. Java leaves `s` alone for an empty `pat`
      when the replacement is empty. */
  function RemoveAll(s: string, pat: string): (r: string)
    ensures |r| <= |s|
    decreases |s|
  {
    if |pat| == 0 || |s| < |pat| then s
    else if s[..|pat|] == pat then RemoveAll(s[|pat|..], pat)
    else [s[0]] + RemoveAll(s[1..], pat)
  }

  /** Reference definition of deleting one character everywhere. */
  function Without(s: string, c: char): (r: string)
    decreases |s|
  {
    if s == [] then []
    else (if s[0] == c then [] else [s[0]]) + Without(s[1..], c)
  }

  lemma {:induction false} WithoutOmits(s: string, c: char)
    ensures c !in Without(s, c)
    ensures |Without(s, c)| <= |s|
    decreases |s|
  {
    if s != [] {
      WithoutOmits(s[1..], c);
    }
  }

  lemma {:induction false} WithoutKeepsAbsent(s: string, c: char, d: char)
    requires d !in s
    ensures d !in Without(s, c)
    decreases |s|
  {
    if s != [] {
      WithoutKeepsAbsent(s[1..], c, d);
    }
  }

  lemma StartsWithAppend(x: string, y: string)
    ensures StartsWith(x + y, x)
  {
    assert (x + y)[..|x|] == x;
  }

  /** Removing a one-character pattern is exactly deleting that character. */
  lemma {:induction false} RemoveCharIsWithout(s: string, c: char)
    ensures RemoveAll(s, [c]) == Without(s, c)
    ensures c !in RemoveAll(s, [c])
  {
    RemoveCharEquals(s, c);
    WithoutOmits(s, c);
  }

  lemma {:induction false} RemoveCharEquals(s: string, c: char)
    ensures RemoveAll(s, [c]) == Without(s, c)
    decreases |s|
  {
    if s != [] {
      RemoveCharEquals(s[1..], c);
      if s[0] == c {
        assert s[..1] == [c];
        assert Without(s, c) == [] + Without(s[1..], c);
      } else {
        assert s[..1] != [c] by {
          assert s[..1][0] != [c][0];
        }
      }
    }
  }

  /** A string in which `pat` never occurs is left unchanged. */
  lemma {:induction false} RemoveAllAbsent(s: string, pat: string)
    requires |pat| > 0
    requires forall i: nat :: !OccursAt(s, pat, i)
    ensures RemoveAll(s, pat) == s
    decreases |s|
  {
    if |s| >= |pat| {
      assert !OccursAt(s, pat, 0);
      assert s[0..|pat|] == s[..|pat|];
      forall i: nat ensures !OccursAt(s[1..], pat, i) {
        assert !OccursAt(s, pat, i + 1);
        if i + |pat| <= |s| - 1 {
          assert s[1..][i..i + |pat|] == s[i + 1..i + 1 + |pat|];
        }
      }
      RemoveAllAbsent(s[1..], pat);
      assert [s[0]] + s[1..] == s;
    }
  }

  /** Removal introduces no character that was not there. */
  lemma {:induction false} RemoveAllChars(s: string, pat: string)
    ensures forall i :: 0 <= i < |RemoveAll(s, pat)| ==> RemoveAll(s, pat)[i] in s
    decreases |s|
  {
    if |pat| > 0 && |s| >= |pat| {
      if s[..|pat|] == pat {
        RemoveAllChars(s[|pat|..], pat);
        forall i | 0 <= i < |RemoveAll(s, pat)| ensures RemoveAll(s, pat)[i] in s {
          var j :| 0 <= j < |s[|pat|..]| && s[|pat|..][j] == RemoveAll(s, pat)[i];
          assert s[|pat| + j] == RemoveAll(s, pat)[i];
        }
      } else {
        RemoveAllChars(s[1..], pat);
        forall i | 0 <= i < |RemoveAll(s, pat)| ensures RemoveAll(s, pat)[i] in s {
          if i > 0 {
            var j :| 0 <= j < |s[1..]| && s[1..][j] == RemoveAll(s, pat)[i];
            assert s[1 + j] == RemoveAll(s, pat)[i];
          }
        }
      }
    }
  }

  /** A character absent from `s` is absent from every removal result. */
  lemma RemoveAllKeepsAbsent(s: string, pat: string, c: char)
    requires c !in s
    ensures c !in RemoveAll(s, pat)
  {
    RemoveAllChars(s, pat);
  }

  /** Text free of the pattern's first character passes through unchanged. */
  lemma {:induction false} RemoveAllLone(p: string, pat: string)
    requires |pat| > 0 && pat[0] !in p
    ensures RemoveAll(p, pat) == p
    decreases |p|
  {
    if |p| >= |pat| {
      assert p[..|pat|][0] != pat[0];
      RemoveAllLone(p[1..], pat);
      assert [p[0]] + p[1..] == p;
    }
  }

  /** Scanning left to right, text free of the pattern's first character is
      kept, and the occurrence that follows it is deleted. */
  lemma {:induction false} RemoveAllFront(p: string, pat: string, rest: string)
    requires |pat| > 0 && pat[0] !in p
    ensures RemoveAll(p + pat + rest, pat) == p + RemoveAll(rest, pat)
    decreases |p|
  {
    if p == [] {
      assert p + pat + rest == pat + rest;
      RemoveAllMatch(pat, rest);
    } else {
      var q := p[1..] + (pat + rest);
      assert p + pat + rest == p + (pat + rest) && p[1..] + pat + rest == q;
      Uncons(p, pat + rest);
      RemoveAllCons(p[0], q, pat);
      RemoveAllFront(p[1..], pat, rest);
      Uncons(p, RemoveAll(rest, pat));
    }
  }

  lemma Uncons(p: string, x: string)
    requires p != []
    ensures p + x == [p[0]] + (p[1..] + x)
  {
    assert p == [p[0]] + p[1..];
  }

  /** A character that cannot start the pattern is kept. */
  lemma RemoveAllCons(c: char, q: string, pat: string)
    requires |pat| > 0 && c != pat[0]
    ensures RemoveAll([c] + q, pat) == [c] + RemoveAll(q, pat)
  {
    var s := [c] + q;
    assert s[1..] == q;
    if |s| >= |pat| {
      assert s[..|pat|][0] == c;
    }
  }

  /** An occurrence at the front is deleted. */
  lemma RemoveAllMatch(pat: string, rest: string)
    requires |pat| > 0
    ensures RemoveAll(pat + rest, pat) == RemoveAll(rest, pat)
  {
    assert (pat + rest)[..|pat|] == pat;
    assert (pat + rest)[|pat|..] == rest;
  }

  /** Where the pattern does not start, the first character is kept. */
  lemma RemoveAllSkip(s: string, pat: string)
    requires |pat| > 0 && |s| >= |pat| && s[..|pat|] != pat
    ensures RemoveAll(s, pat) == [s[0]] + RemoveAll(s[1..], pat)
  {
  }

  /** The first occurrence is deleted: text in which the pattern starts
      nowhere is kept, and the occurrence after it goes. With RemoveAllAbsent
      this fixes the result on every input. */
  lemma {:induction false} RemoveAllFirst(p: string, pat: string, rest: string)
    requires |pat| > 0
    requires forall i: nat :: i < |p| ==> !OccursAt(p + pat + rest, pat, i)
    ensures RemoveAll(p + pat + rest, pat) == p + RemoveAll(rest, pat)
    decreases |p|
  {
    if p == [] {
      assert p + pat + rest == pat + rest;
      RemoveAllMatch(pat, rest);
    } else {
      var s := p + pat + rest;
      assert !OccursAt(s, pat, 0);
      assert s[0..|pat|] == s[..|pat|];
      RemoveAllSkip(s, pat);
      assert s[1..] == p[1..] + pat + rest;
      forall i: nat | i < |p[1..]| ensures !OccursAt(p[1..] + pat + rest, pat, i) {
        assert !OccursAt(s, pat, i + 1);
        assert s[1..][i..i + |pat|] == s[i + 1..i + 1 + |pat|];
      }
      RemoveAllFirst(p[1..], pat, rest);
      Uncons(p, RemoveAll(rest, pat));
    }
  }

  /** Reference for `replace(pat, "")`: when no part holds the pattern's first
      character, removing the pattern from the parts joined by it leaves the
      parts, concatenated. */
  lemma {:induction false} RemoveAllJoin(parts: seq<string>, pat: string)
    requires |pat| > 0
    requires forall k :: 0 <= k < |parts| ==> pat[0] !in parts[k]
    ensures RemoveAll(Join(parts, pat), pat) == Join(parts, "")
    decreases |parts|
  {
    if |parts| == 1 {
      RemoveAllLone(parts[0], pat);
    } else if |parts| > 1 {
      var tail := parts[1..];
      assert Join(parts, pat) == parts[0] + pat + Join(tail, pat);
      forall k | 0 <= k < |tail| ensures pat[0] !in tail[k] {
        assert tail[k] == parts[k + 1];
      }
      RemoveAllFront(parts[0], pat, Join(tail, pat));
      RemoveAllJoin(tail, pat);
      assert Join(parts, "") == parts[0] + Join(tail, "");
    }
  }

  /** Index of the first `c` in `s`. */
  function IndexOf(s: string, c: char): (i: nat)
    requires c in s
    ensures i < |s| && s[i] == c && c !in s[..i]
    decreases |s|
  {
    if s[0] == c then 0 else 1 + IndexOf(s[1..], c)
  }

  /** `s.replaceFirst(c, "")` for a pattern that is one literal character. */
  function RemoveFirst(s: string, c: char): (r: string)
    decreases |s|
  {
    if s == [] then []
    else if s[0] == c then s[1..]
    else [s[0]] + RemoveFirst(s[1..], c)
  }

  /** Only the first `c` disappears, and nothing else changes; without a `c`
      the string is unchanged. */
  lemma {:induction false} RemoveFirstSpec(s: string, c: char)
    ensures c !in s ==> RemoveFirst(s, c) == s
    ensures c in s ==> RemoveFirst(s, c) == s[..IndexOf(s, c)] + s[IndexOf(s, c) + 1..]
    decreases |s|
  {
    if s != [] && s[0] != c {
      RemoveFirstSpec(s[1..], c);
      assert s == [s[0]] + s[1..];
      if c in s {
        var i := IndexOf(s[1..], c);
        assert s[..i + 1] == [s[0]] + s[1..][..i];
        assert s[i + 2..] == s[1..][i + 1..];
      }
    }
  }

  /** `sep.join(parts)`. */
  function Join(parts: seq<string>, sep: string): string
    decreases |parts|
  {
    if |parts| == 0 then ""
    else if |parts| == 1 then parts[0]
    else parts[0] + sep + Join(parts[1..], sep)
  }

  /** Each part followed by `term`, as lines followed by a line terminator. */
  function Terminated(parts: seq<string>, term: string): string
    decreases |parts|
  {
    if parts == [] then "" else Terminated(parts[..|parts| - 1], term) + parts[|parts| - 1] + term
  }

  lemma {:induction false} TerminatedAppend(parts: seq<string>, more: seq<string>, term: string)
    ensures Terminated(parts + more, term) == Terminated(parts, term) + Terminated(more, term)
    decreases |more|
  {
    if more == [] {
      assert parts + more == parts;
    } else {
      var last := |more| - 1;
      assert (parts + more)[..|parts + more| - 1] == parts + more[..last];
      TerminatedAppend(parts, more[..last], term);
    }
  }

  /** Terminated parts, read from the front. */
  lemma TerminatedFirst(parts: seq<string>, term: string)
    requires |parts| > 0
    ensures Terminated(parts, term) == parts[0] + (term + Terminated(parts[1..], term))
  {
    TerminatedCons(parts[0], parts[1..], term);
    assert parts == [parts[0]] + parts[1..];
  }

  lemma {:induction false} TerminatedCons(first: string, rest: seq<string>, term: string)
    ensures Terminated([first] + rest, term) == first + term + Terminated(rest, term)
  {
    TerminatedAppend([first], rest, term);
    assert [first][..0] == [];
  }

  /** Terminated lines followed by a final unterminated part are the join of
      all of them. */
  lemma {:induction false} TerminatedIsJoin(parts: seq<string>, last: string, sep: string)
    ensures Terminated(parts, sep) + last == Join(parts + [last], sep)
    decreases |parts|
  {
    if parts != [] {
      TerminatedCons(parts[0], parts[1..], sep);
      assert parts == [parts[0]] + parts[1..];
      TerminatedIsJoin(parts[1..], last, sep);
      assert (parts + [last])[1..] == parts[1..] + [last];
    }
  }

  /** The first index at which `sep` occurs in `s`, or `|s|` if it does not. */
  function Find(s: string, sep: string): (i: nat)
    requires |sep| > 0
    ensures i <= |s|
    ensures i < |s| ==> OccursAt(s, sep, i)
    ensures i == |s| ==> forall j: nat :: !OccursAt(s, sep, j)
    ensures forall j: nat :: j < i ==> !OccursAt(s, sep, j)
    decreases |s|
  {
    if |s| < |sep| then |s|
    else if s[..|sep|] == sep then 0
    else
      var k := Find(s[1..], sep);
      assert forall j: nat :: 1 <= j ==> (OccursAt(s, sep, j) <==> OccursAt(s[1..], sep, j - 1)) by {
        forall j: nat | 1 <= j ensures OccursAt(s, sep, j) <==> OccursAt(s[1..], sep, j - 1) {
          if j + |sep| <= |s| {
            assert s[1..][j - 1..j - 1 + |sep|] == s[j..j + |sep|];
          }
        }
      }
      assert !OccursAt(s, sep, 0);
      if k == |s| - 1 then |s| else 1 + k
  }

  /** `s` cut at every occurrence of `sep`; the part after the last
      occurrence is kept even when it is empty. */
  function Split(s: string, sep: string): seq<string>
    requires |sep| > 0
    decreases |s|
  {
    var i := Find(s, sep);
    if i == |s| then [s] else [s[..i]] + Split(s[i + |sep|..], sep)
  }

  /** Splitting undoes joining when no part contains the separator's first
      character. */
  lemma {:induction false} SplitJoin(parts: seq<string>, sep: string)
    requires |sep| > 0 && |parts| > 0
    requires forall k :: 0 <= k < |parts| ==> sep[0] !in parts[k]
    ensures Split(Join(parts, sep), sep) == parts
    decreases |parts|
  {
    if |parts| == 1 {
      SplitLone(parts[0], sep);
    } else {
      SplitFront(parts[0], sep, Join(parts[1..], sep));
      SplitJoin(parts[1..], sep);
    }
  }

  /** No occurrence of `sep` starts inside a prefix free of its first character. */
  lemma NoOccurrenceIn(p: string, sep: string, rest: string)
    requires |sep| > 0 && sep[0] !in p
    ensures forall j: nat :: j < |p| ==> !OccursAt(p + rest, sep, j)
  {
    forall j: nat | j < |p| ensures !OccursAt(p + rest, sep, j) {
      assert (p + rest)[j] == p[j];
    }
  }

  /** No occurrence behind a prefix that lacks the pattern's first character. */
  lemma NoOccurrenceBehind(a: string, m: string, pat: string)
    requires |pat| > 0 && pat[0] !in a
    requires forall i: nat :: !OccursAt(m, pat, i)
    ensures forall i: nat :: !OccursAt(a + m, pat, i)
  {
    NoOccurrenceIn(a, pat, m);
    forall i: nat | i >= |a| ensures !OccursAt(a + m, pat, i) {
      assert !OccursAt(m, pat, i - |a|);
      if i + |pat| <= |a + m| {
        assert (a + m)[i..i + |pat|] == m[i - |a|..i - |a| + |pat|];
      }
    }
  }

  /** An occurrence cannot start in `m` and run into `b` when `b`'s first
      character is none of the pattern's later characters. */
  lemma NoOccurrenceAcross(m: string, b: string, pat: string)
    requires |pat| > 0 && b != [] && b[0] !in pat[1..]
    requires forall i: nat :: !OccursAt(m, pat, i)
    ensures forall i: nat :: i < |m| ==> !OccursAt(m + b, pat, i)
  {
    forall i: nat | i < |m| ensures !OccursAt(m + b, pat, i) {
      if i + |pat| <= |m| {
        assert !OccursAt(m, pat, i);
        assert (m + b)[i..i + |pat|] == m[i..i + |pat|];
      } else if i + |pat| <= |m + b| {
        assert (m + b)[i..i + |pat|][|m| - i] == b[0];
        assert pat[1..][|m| - i - 1] == pat[|m| - i];
      }
    }
  }

  lemma SplitLone(p: string, sep: string)
    requires |sep| > 0 && sep[0] !in p
    ensures Split(p, sep) == [p]
  {
    NoOccurrenceIn(p, sep, "");
    assert p + "" == p;
  }

  lemma SplitFront(p: string, sep: string, rest: string)
    requires |sep| > 0 && sep[0] !in p
    ensures Split(p + sep + rest, sep) == [p] + Split(rest, sep)
  {
    var s := p + sep + rest;
    NoOccurrenceIn(p, sep, sep + rest);
    assert s == p + (sep + rest);
    assert s[|p|..|p| + |sep|] == sep;
    assert OccursAt(s, sep, |p|);
    assert s[..|p|] == p;
    assert s[|p| + |sep|..] == rest;
  }
}
