/** The parts of Python 2's byte-string library that the credential-file
    parser relies on: `str.isspace`, `str.strip`, `str.splitlines` and
    `str.lower`, restricted to ASCII. */
module PyText {

  /** Python's whitespace set for byte strings: space, tab, line feed,
      vertical tab, form feed and carriage return. */
  predicate IsSpace(c: char) {
    c == ' ' || c == '\t' || c == '\n' || c == '\r' || c == 11 as char || c == 12 as char
  }

  predicate AllSpace(s: string) {
    forall i :: 0 <= i < |s| ==> IsSpace(s[i])
  }

  /** `s.lstrip()`: `s` without its leading whitespace (`LStripSplit`). */
  function LStrip(s: string): (r: string)
    ensures |r| <= |s|
    ensures r == [] || !IsSpace(r[0])
  {
    if s != [] && IsSpace(s[0]) then LStrip(s[1..]) else s
  }

  /** What `lstrip` removes is whitespace, and what it keeps is a suffix. */
  lemma {:induction false} LStripSplit(s: string)
    ensures s == s[..|s| - |LStrip(s)|] + LStrip(s)
    ensures AllSpace(s[..|s| - |LStrip(s)|])
    decreases |s|
  {
    if s != [] && IsSpace(s[0]) {
      LStripSplit(s[1..]);
      var k := |s| - |LStrip(s)|;
      assert s[1..][..k - 1] == s[1..k];
      assert s[..k] == [s[0]] + s[1..k];
    }
  }

  /** `s.rstrip()`: `s` without its trailing whitespace (`RStripSplit`). */
  function RStrip(s: string): (r: string)
    ensures |r| <= |s|
    ensures r == [] || !IsSpace(r[|r| - 1])
  {
    if s != [] && IsSpace(s[|s| - 1]) then RStrip(s[..|s| - 1]) else s
  }

  /** What `rstrip` removes is whitespace, and what it keeps is a prefix. */
  lemma {:induction false} RStripSplit(s: string)
    ensures s == RStrip(s) + s[|RStrip(s)|..]
    ensures AllSpace(s[|RStrip(s)|..])
    decreases |s|
  {
    if s != [] && IsSpace(s[|s| - 1]) {
      var t := s[..|s| - 1];
      RStripSplit(t);
      var k := |RStrip(s)|;
      assert s[k..] == t[k..] + [s[|s| - 1]];
      assert s == t + [s[|s| - 1]];
    }
  }

  /** Stripping both ends leaves nothing exactly when the string is all
      whitespace. */
  lemma StripEmptyIff(s: string)
    ensures RStrip(LStrip(s)) == [] <==> AllSpace(s)
  {
    var l := LStrip(s);
    var r := RStrip(l);
    LStripSplit(s);
    RStripSplit(l);
    if r == [] {
      assert s[..|s| - |l|] == s;
    } else {
      assert r[|r| - 1] == s[|s| - |l| + |r| - 1];
    }
  }

  /** `s.strip()`: `s` with whitespace removed at both ends.  The result is
      empty exactly when `s` is all whitespace; what is removed is whitespace
      (`LStripSplit`, `RStripSplit`), and what is left neither starts nor
      ends with it (`StripEnds`). */
  function Strip(s: string): (r: string)
    ensures |r| <= |s|
    ensures r == [] <==> AllSpace(s)
  {
    StripEmptyIff(s);
    RStrip(LStrip(s))
  }

  /** What `strip` leaves neither starts nor ends with whitespace. */
  lemma StripEnds(s: string)
    ensures Strip(s) == [] || (!IsSpace(Strip(s)[0]) && !IsSpace(Strip(s)[|Strip(s)| - 1]))
  {
    var l := LStrip(s);
    RStripSplit(l);
    if Strip(s) != [] {
      assert Strip(s)[0] == l[0];
    }
  }

  /** A whitespace character appended to a string survives `lstrip` unless
      the whole string is whitespace. */
  lemma {:induction false} LStripSnocSpace(s: string, c: char)
    requires IsSpace(c)
    ensures LStrip(s + [c]) == if LStrip(s) == [] then [] else LStrip(s) + [c]
    decreases |s|
  {
    if s == [] {
      assert LStrip([c]) == LStrip([c][1..]);
    } else if IsSpace(s[0]) {
      assert (s + [c])[1..] == s[1..] + [c];
      LStripSnocSpace(s[1..], c);
    }
  }

  /** Trailing whitespace never reaches the result of `strip`. */
  lemma StripSnocSpace(s: string, c: char)
    requires IsSpace(c)
    ensures Strip(s + [c]) == Strip(s)
  {
    LStripSnocSpace(s, c);
    var l := LStrip(s);
    if l != [] {
      assert (l + [c])[..|l|] == l;
    }
  }

  /** A string that neither starts nor ends with whitespace is its own strip. */
  lemma StripUnchanged(s: string)
    requires s == [] || (!IsSpace(s[0]) && !IsSpace(s[|s| - 1]))
    ensures Strip(s) == s
  {
  }

  predicate IsLineBreak(c: char) {
    c == '\n' || c == '\r'
  }

  /** A string holding no line-break character. */
  predicate OneLine(s: string) {
    '\n' !in s && '\r' !in s
  }

  /** Index of the first line-break character of `s` at or after `i`, or `|s|`. */
  function LineEnd(s: string, i: nat): (k: nat)
    requires i <= |s|
    ensures i <= k <= |s|
    ensures k < |s| ==> IsLineBreak(s[k])
    ensures forall j :: i <= j < k ==> !IsLineBreak(s[j])
    decreases |s| - i
  {
    if i == |s| || IsLineBreak(s[i]) then i else LineEnd(s, i + 1)
  }

  /** `s.splitlines()` for a byte string: lines end at "\n", "\r" or "\r\n",
      the terminators are dropped, and a final terminator does not start an
      extra empty line. */
  function SplitLines(s: string): (r: seq<string>)
    ensures r == [] <==> s == []
    ensures forall k :: 0 <= k < |r| ==> '\n' !in r[k] && '\r' !in r[k]
    decreases |s|
  {
    if s == [] then []
    else
      var k := LineEnd(s, 0);
      if k == |s| then
        assert forall c :: c in s ==> !IsLineBreak(c);
        [s]
      else
        var next := if s[k] == '\r' && k + 1 < |s| && s[k + 1] == '\n' then k + 2 else k + 1;
        var rest := SplitLines(s[next..]);
        assert forall c :: c in s[..k] ==> !IsLineBreak(c);
        [s[..k]] + rest
  }

  /** The lines of a "\n"-terminated text, each followed by "\n" again. */
  function Terminated(lines: seq<string>): string {
    if lines == [] then [] else lines[0] + "\n" + Terminated(lines[1..])
  }

  /** A line without breaks followed by "\n" is split off as one line. */
  lemma SplitLinesCons(line: string, rest: string)
    requires '\n' !in line && '\r' !in line
    ensures SplitLines(line + "\n" + rest) == [line] + SplitLines(rest)
  {
    var s := line + "\n" + rest;
    var k := LineEnd(s, 0);
    assert s[|line|] == '\n';
    assert s[..k] == line && s[k + 1..] == rest;
  }

  /** A last line without a terminator. */
  lemma SplitLinesLast(line: string)
    requires line != [] && '\n' !in line && '\r' !in line
    ensures SplitLines(line) == [line]
  {
  }

  /** Lines without breaks, each written with a "\n", split back into the
      same lines. */
  lemma {:induction false} SplitTerminated(lines: seq<string>)
    requires forall k :: 0 <= k < |lines| ==> '\n' !in lines[k] && '\r' !in lines[k]
    ensures SplitLines(Terminated(lines)) == lines
  {
    if lines != [] {
      SplitTerminated(lines[1..]);
      SplitLinesCons(lines[0], Terminated(lines[1..]));
    }
  }

  predicate IsUpper(c: char) {
    'A' <= c <= 'Z'
  }

  /** `c.lower()` on an ASCII byte: upper-case letters map to lower case. */
  function LowerChar(c: char): (r: char)
    ensures !IsUpper(r)
    ensures IsUpper(c) ==> r as int == c as int + 32
    ensures !IsUpper(c) ==> r == c
  {
    if IsUpper(c) then (c as int + 32) as char else c
  }

  /** `s.lower()`, letter by letter, with ASCII case folding only. */
  function Lower(s: string): (r: string)
    ensures |r| == |s|
    ensures forall i :: 0 <= i < |s| ==> r[i] == LowerChar(s[i])
  {
    seq(|s|, i requires 0 <= i < |s| => LowerChar(s[i]))
  }

  /** Lower-casing is idempotent. */
  lemma LowerIdempotent(s: string)
    ensures Lower(Lower(s)) == Lower(s)
  {
  }

  /** A string without upper-case letters is its own lower case. */
  lemma LowerNoUpper(s: string)
    requires forall i :: 0 <= i < |s| ==> !IsUpper(s[i])
    ensures Lower(s) == s
  {
  }
}
