/** The body of the loop in `PgPassFile.entries`: one raw line of a
    credential file becomes an entry, or is skipped as blank, as a comment,
    for a wrong field count or for a port that `int()` rejects. */
module LineParser {
  import opened Wrappers
  import opened PyText
  import opened Matching

  // ---------------------------------------------------------------------------
  // Field splitting: `re.split(r'(?<!\\):', line, 4)`

  /** Position `i` holds a colon that is not preceded by a backslash. */
  predicate IsSeparator(s: string, i: nat)
    requires i < |s|
  {
    s[i] == ':' && (i == 0 || s[i - 1] != '\\')
  }

  predicate NoSeparator(s: string) {
    forall i :: 0 <= i < |s| ==> !IsSeparator(s, i)
  }

  /** Index of the first separator of `s` at or after `i`, or `|s|`. */
  function FirstSeparatorFrom(s: string, i: nat): (k: nat)
    requires i <= |s|
    ensures i <= k <= |s|
    ensures k < |s| ==> IsSeparator(s, k)
    ensures forall j :: i <= j < k ==> !IsSeparator(s, j)
    decreases |s| - i
  {
    if i == |s| || IsSeparator(s, i) then i else FirstSeparatorFrom(s, i + 1)
  }

  /** The fields joined back together with the colons they were split at. */
  function JoinFields(fields: seq<string>): string {
    if fields == [] then []
    else if |fields| == 1 then fields[0]
    else fields[0] + ":" + JoinFields(fields[1..])
  }

  /** Joining fields with colons adds no line break. */
  lemma {:induction false} JoinOneLine(fields: seq<string>)
    requires forall k :: 0 <= k < |fields| ==> OneLine(fields[k])
    ensures OneLine(JoinFields(fields))
  {
    if |fields| > 1 {
      JoinOneLine(fields[1..]);
    }
  }

  /** `fields` could have come out of a split: every field but the last is
      free of separators and does not end in a backslash, so the colon after
      it is a separator. */
  predicate Splittable(fields: seq<string>) {
    |fields| <= 1 || (EndsBeforeSeparator(fields[0]) && Splittable(fields[1..]))
  }

  /** A field that a separator can follow: it holds no separator and does
      not end in a backslash. */
  predicate EndsBeforeSeparator(f: string) {
    NoSeparator(f) && (f == [] || f[|f| - 1] != '\\')
  }

  /** Split `s` at separators, at most `maxsplit` times, the rest staying in
      the last field; so there are at most `maxsplit + 1` fields
      (`SplitFieldsJoin`, `SplitFieldsSplittable` and `SplitFieldsLast` say
      how they relate to `s`). */
  function SplitFields(s: string, maxsplit: nat): (r: seq<string>)
    ensures 1 <= |r| <= maxsplit + 1
    decreases maxsplit
  {
    var k := FirstSeparatorFrom(s, 0);
    if maxsplit == 0 || k == |s| then [s]
    else [s[..k]] + SplitFields(s[k + 1..], maxsplit - 1)
  }

  /** The text before the first separator can itself be followed by one. */
  lemma PrefixBeforeSeparator(s: string)
    ensures var k := FirstSeparatorFrom(s, 0); k < |s| ==> EndsBeforeSeparator(s[..k])
  {
    var k := FirstSeparatorFrom(s, 0);
    var head := s[..k];
    forall i | 0 <= i < |head| ensures !IsSeparator(head, i) {
      assert !IsSeparator(s, i);
    }
  }

  /** The fields join back to `s` with the colons they were split at. */
  lemma {:induction false} SplitFieldsJoin(s: string, maxsplit: nat)
    ensures JoinFields(SplitFields(s, maxsplit)) == s
    decreases maxsplit
  {
    var k := FirstSeparatorFrom(s, 0);
    if maxsplit > 0 && k < |s| {
      SplitFieldsJoin(s[k + 1..], maxsplit - 1);
      var rest := SplitFields(s[k + 1..], maxsplit - 1);
      var r := [s[..k]] + rest;
      assert r[1..] == rest;
      assert s == s[..k] + ":" + s[k + 1..];
    }
  }

  /** Every field but the last is separator-free and does not end in a
      backslash. */
  lemma {:induction false} SplitFieldsSplittable(s: string, maxsplit: nat)
    ensures Splittable(SplitFields(s, maxsplit))
    decreases maxsplit
  {
    var k := FirstSeparatorFrom(s, 0);
    if maxsplit > 0 && k < |s| {
      var rest := SplitFields(s[k + 1..], maxsplit - 1);
      var r := [s[..k]] + rest;
      assert SplitFields(s, maxsplit) == r;
      SplitFieldsSplittable(s[k + 1..], maxsplit - 1);
      PrefixBeforeSeparator(s);
      assert r[1..] == rest;
    }
  }

  /** The last field holds a separator only when the split limit was
      reached. */
  lemma {:induction false} SplitFieldsLast(s: string, maxsplit: nat)
    ensures var r := SplitFields(s, maxsplit);
            |r| <= maxsplit ==> NoSeparator(r[|r| - 1])
    decreases maxsplit
  {
    var k := FirstSeparatorFrom(s, 0);
    if maxsplit > 0 && k < |s| {
      var rest := SplitFields(s[k + 1..], maxsplit - 1);
      var r := [s[..k]] + rest;
      assert SplitFields(s, maxsplit) == r;
      SplitFieldsLast(s[k + 1..], maxsplit - 1);
      assert r[|r| - 1] == rest[|rest| - 1];
    }
  }

  /** A separator-free string followed by a colon is split off as one field,
      provided it does not end in a backslash. */
  lemma SplitFieldsCons(head: string, rest: string, maxsplit: nat)
    requires maxsplit > 0
    requires EndsBeforeSeparator(head)
    ensures SplitFields(head + ":" + rest, maxsplit) == [head] + SplitFields(rest, maxsplit - 1)
  {
    var s := head + ":" + rest;
    var k := FirstSeparatorFrom(s, 0);
    if k < |head| {
      assert IsSeparator(head, k);
    }
    assert IsSeparator(s, |head|);
    assert s[..k] == head && s[k + 1..] == rest;
  }

  /** A separator-free string is a single field. */
  lemma SplitFieldsSingle(s: string, maxsplit: nat)
    requires maxsplit > 0 ==> NoSeparator(s)
    ensures SplitFields(JoinFields([s]), maxsplit) == [s]
  {
  }

  lemma SplitFieldsOfJoinStep(fields: seq<string>, maxsplit: nat)
    requires |fields| >= 2 && maxsplit > 0 && EndsBeforeSeparator(fields[0])
    requires SplitFields(JoinFields(fields[1..]), maxsplit - 1) == fields[1..]
    ensures SplitFields(JoinFields(fields), maxsplit) == fields
  {
    var rest := JoinFields(fields[1..]);
    assert JoinFields(fields) == fields[0] + ":" + rest;
    SplitFieldsCons(fields[0], rest, maxsplit);
    assert fields == [fields[0]] + fields[1..];
  }

  /** The split is the only one that joins back to the line: any splittable
      list of at most `maxsplit + 1` fields whose last field is separator-free
      (or which uses up the split limit) is recovered from its join. */
  lemma {:induction false} SplitFieldsOfJoin(fields: seq<string>, maxsplit: nat)
    requires 1 <= |fields| <= maxsplit + 1
    requires Splittable(fields)
    requires |fields| <= maxsplit ==> NoSeparator(fields[|fields| - 1])
    ensures SplitFields(JoinFields(fields), maxsplit) == fields
    decreases |fields|
  {
    if |fields| == 1 {
      SplitFieldsSingle(fields[0], maxsplit);
    } else {
      var tail := fields[1..];
      assert tail[|tail| - 1] == fields[|fields| - 1];
      SplitFieldsOfJoin(tail, maxsplit - 1);
      SplitFieldsOfJoinStep(fields, maxsplit);
    }
  }

  // ---------------------------------------------------------------------------
  // Unescaping: `.replace('\\\\', '\\').replace('\\:', ':')`

  /** `s.replace('\\\\', '\\')`: each backslash pair, scanned left to right
      without overlap, becomes one backslash.  The two replacements of
      `Unescape` stay two functions, one per `replace` call: the second runs
      over the output of the first, and the lemmas below (`CollapseEscaped`,
      `UnescapeColonsEscaped`) state what each step does on its own. */
  function CollapseBackslashes(s: string): (r: string)
    ensures |r| <= |s|
    ensures r == [] <==> s == []
  {
    if |s| >= 2 && s[0] == '\\' && s[1] == '\\' then "\\" + CollapseBackslashes(s[2..])
    else if s == [] then []
    else [s[0]] + CollapseBackslashes(s[1..])
  }

  /** `s.replace('\\:', ':')`: each backslash-colon pair becomes a colon. */
  function UnescapeColons(s: string): (r: string)
    ensures |r| <= |s|
    ensures r == [] <==> s == []
  {
    if |s| >= 2 && s[0] == '\\' && s[1] == ':' then ":" + UnescapeColons(s[2..])
    else if s == [] then []
    else [s[0]] + UnescapeColons(s[1..])
  }

  /** The two replacements the parser applies, in the order it applies them:
      an empty field stays empty and every other field keeps at least one
      character.  `UnescapeEscape` states what the replacements undo. */
  function Unescape(s: string): (r: string)
    ensures |r| <= |s|
    ensures r == [] <==> s == []
  {
    UnescapeColons(CollapseBackslashes(s))
  }

  /** The escaping the file format describes: a backslash is written `\\`
      and a colon `\:`. */
  function Escape(v: string): (r: string)
    ensures |r| >= |v|
  {
    if v == [] then []
    else if v[0] == '\\' then "\\\\" + Escape(v[1..])
    else if v[0] == ':' then "\\:" + Escape(v[1..])
    else [v[0]] + Escape(v[1..])
  }

  /** Every colon of `v` preceded by a backslash; the intermediate text
      after the first replacement of an escaped value. */
  function EscapeColonsOnly(v: string): (r: string)
    ensures r == [] <==> v == []
    ensures r != [] ==> r[0] != ':'
  {
    if v == [] then []
    else if v[0] == ':' then "\\:" + EscapeColonsOnly(v[1..])
    else [v[0]] + EscapeColonsOnly(v[1..])
  }

  /** The first replacement turns a backslash pair into one backslash and
      moves on past it. */
  lemma CollapsePair(rest: string)
    ensures CollapseBackslashes("\\\\" + rest) == "\\" + CollapseBackslashes(rest)
  {
    assert ("\\\\" + rest)[2..] == rest;
  }

  /** The first replacement keeps an escaped colon. */
  lemma CollapseKeepsEscapedColon(rest: string)
    ensures CollapseBackslashes("\\:" + rest) == "\\:" + CollapseBackslashes(rest)
  {
    var s, t := "\\:" + rest, ":" + rest;
    assert s[1..] == t && t[1..] == rest;
    assert CollapseBackslashes(t) == ":" + CollapseBackslashes(rest);
  }

  /** The first replacement keeps any character but a backslash. */
  lemma CollapseKeeps(c: char, rest: string)
    requires c != '\\'
    ensures CollapseBackslashes([c] + rest) == [c] + CollapseBackslashes(rest)
  {
    assert ([c] + rest)[1..] == rest;
  }

  lemma {:induction false} CollapseEscaped(v: string)
    ensures CollapseBackslashes(Escape(v)) == EscapeColonsOnly(v)
  {
    if v != [] {
      CollapseEscaped(v[1..]);
      var rest := Escape(v[1..]);
      if v[0] == '\\' {
        CollapsePair(rest);
      } else if v[0] == ':' {
        CollapseKeepsEscapedColon(rest);
      } else {
        CollapseKeeps(v[0], rest);
      }
    }
  }

  lemma {:induction false} UnescapeColonsEscaped(v: string)
    ensures UnescapeColons(EscapeColonsOnly(v)) == v
  {
    if v != [] {
      UnescapeColonsEscaped(v[1..]);
      var rest := EscapeColonsOnly(v[1..]);
      if v[0] == ':' {
        assert ("\\:" + rest)[2..] == rest;
      } else {
        assert ([v[0]] + rest)[1..] == rest;
      }
    }
  }

  /** Unescaping undoes the format's escaping, field by field.  (The converse
      fails: see `UnescapeNotInjective`.) */
  lemma UnescapeEscape(v: string)
    ensures Unescape(Escape(v)) == v
  {
    CollapseEscaped(v);
    UnescapeColonsEscaped(v);
  }

  /** Three different raw fields unescape to a single colon, so no escaping
      function can be recovered from the unescaped value. */
  lemma UnescapeNotInjective()
    ensures Unescape("\\\\:") == ":" && Unescape("\\:") == ":" && Unescape(":") == ":"
  {
    assert CollapseBackslashes("\\\\:") == "\\:" by {
      assert "\\\\:"[2..] == ":";
      assert CollapseBackslashes(":") == ":";
    }
    assert CollapseBackslashes("\\:") == "\\:" by {
      assert "\\:"[1..] == ":";
      assert CollapseBackslashes(":") == ":";
    }
    assert UnescapeColons("\\:") == ":" by {
      assert "\\:"[2..] == [];
    }
  }

  /** Escaping works character by character, so it distributes over
      concatenation. */
  lemma {:induction false} EscapeAppend(a: string, b: string)
    ensures Escape(a + b) == Escape(a) + Escape(b)
  {
    if a == [] {
      assert a + b == b;
    } else {
      var c := a[0];
      assert a == [c] + a[1..];
      assert a + b == [c] + (a[1..] + b);
      EscapeCons(c, a[1..] + b);
      EscapeCons(c, a[1..]);
      EscapeAppend(a[1..], b);
    }
  }

  /** Escaping a string is escaping its first character and then the rest. */
  lemma EscapeCons(c: char, rest: string)
    ensures Escape([c] + rest) == Escape([c]) + Escape(rest)
  {
    assert ([c] + rest)[1..] == rest;
    assert [c][1..] == [];
  }

  /** A value without backslashes or colons is written as it is. */
  lemma {:induction false} EscapePlain(v: string)
    requires '\\' !in v && ':' !in v
    ensures Escape(v) == v
  {
    if v != [] {
      assert v[0] in v;
      assert forall c :: c in v[1..] ==> c in v;
      EscapePlain(v[1..]);
    }
  }

  /** Text without backslashes passes through the first replacement. */
  lemma {:induction false} CollapsePlainPrefix(a: string, b: string)
    requires '\\' !in a
    ensures CollapseBackslashes(a + b) == a + CollapseBackslashes(b)
  {
    if a == [] {
      assert a + b == b;
    } else {
      var ab := a + b;
      assert a == [a[0]] + a[1..];
      assert ab[1..] == a[1..] + b;
      assert ab[0] == a[0] && a[0] != '\\';
      assert CollapseBackslashes(ab) == [a[0]] + CollapseBackslashes(ab[1..]);
      CollapsePlainPrefix(a[1..], b);
      assert a == [a[0]] + a[1..];
    }
  }

  /** Text without backslashes passes through the second replacement. */
  lemma {:induction false} UnescapeColonsPlainPrefix(a: string, b: string)
    requires '\\' !in a
    ensures UnescapeColons(a + b) == a + UnescapeColons(b)
  {
    if a == [] {
      assert a + b == b;
    } else {
      var ab := a + b;
      assert a == [a[0]] + a[1..];
      assert ab[1..] == a[1..] + b;
      assert ab[0] == a[0] && a[0] != '\\';
      assert UnescapeColons(ab) == [a[0]] + UnescapeColons(ab[1..]);
      UnescapeColonsPlainPrefix(a[1..], b);
      assert a == [a[0]] + a[1..];
    }
  }

  /** A field without backslashes is taken as it is. */
  lemma UnescapePlain(s: string)
    requires '\\' !in s
    ensures Unescape(s) == s
  {
    CollapsePlainPrefix(s, []);
    UnescapeColonsPlainPrefix(s, []);
    assert s + [] == s;
  }

  /** A backslash that escapes neither a backslash nor a colon is kept. */
  lemma UnescapeLoneBackslash(a: string, b: string)
    requires '\\' !in a && '\\' !in b && (b == [] || b[0] != ':')
    ensures Unescape(a + "\\" + b) == a + "\\" + b
  {
    var t := "\\" + b;
    assert a + "\\" + b == a + t;
    CollapsePlainPrefix(a, t);
    CollapsePlainPrefix(b, []);
    assert t[1..] == b + [];
    assert CollapseBackslashes(t) == t;
    UnescapeColonsPlainPrefix(a, t);
    UnescapeColonsPlainPrefix(b, []);
    assert UnescapeColons(t) == t;
  }

  /** An escaped colon between backslash-free text becomes a colon. */
  lemma UnescapeEscapedColon(a: string, b: string)
    requires '\\' !in a && '\\' !in b
    ensures Unescape(a + "\\:" + b) == a + ":" + b
  {
    var t := "\\:" + b;
    assert a + "\\:" + b == a + t;
    CollapsePlainPrefix(a, t);
    CollapsePlainPrefix(":" + b, []);
    assert t[1..] == (":" + b) + [];
    assert CollapseBackslashes(t) == t;
    UnescapeColonsPlainPrefix(a, t);
    UnescapeColonsPlainPrefix(b, []);
    assert t[2..] == b + [];
    assert UnescapeColons(t) == ":" + b;
  }

  /** An escaped value never contains a separator: every colon in it is
      preceded by the backslash that escapes it. */
  lemma {:induction false} EscapeHasNoSeparator(v: string)
    ensures NoSeparator(Escape(v))
  {
    if v != [] {
      EscapeHasNoSeparator(v[1..]);
      var rest := Escape(v[1..]);
      var head := if v[0] == '\\' then "\\\\" else if v[0] == ':' then "\\:" else [v[0]];
      var s := head + rest;
      assert s == Escape(v);
      forall i | 0 <= i < |s| ensures !IsSeparator(s, i) {
        if i >= |head| {
          var j := i - |head|;
          assert s[i] == rest[j];
          if j > 0 {
            assert s[i - 1] == rest[j - 1];
            assert !IsSeparator(rest, j);
          } else if rest[0] == ':' {
            assert false;
          }
        }
      }
    }
  }

  // ---------------------------------------------------------------------------
  // Port: `int(fields[1])`

  predicate IsDigit(c: char) {
    '0' <= c <= '9'
  }

  predicate AllDigits(s: string) {
    forall i :: 0 <= i < |s| ==> IsDigit(s[i])
  }

  /** The value of a string of decimal digits, most significant first. */
  function DigitsValue(ds: string): (n: nat)
    requires AllDigits(ds)
  {
    if ds == [] then 0
    else DigitsValue(ds[..|ds| - 1]) * 10 + (ds[|ds| - 1] as int - '0' as int)
  }

  /** An optional sign followed by at least one digit, and nothing else. */
  predicate SignedDigits(t: string) {
    t != [] && (IsDigit(t[0]) || ((t[0] == '+' || t[0] == '-') && |t| > 1)) && AllDigits(t[1..])
  }

  /** The value of an optional sign followed by at least one digit; only a
      minus sign makes it negative. */
  function ParseSignedDigits(t: string): (r: Option<int>)
    ensures r.Some? <==> SignedDigits(t)
    ensures r.Some? && t[0] != '-' ==> r.value >= 0
    ensures r.Some? && t[0] == '-' ==> r.value <= 0
  {
    if t == [] then None
    else if t[0] == '-' || t[0] == '+' then
      var digits := t[1..];
      if digits == [] || !AllDigits(digits) then None
      else
        var magnitude: int := DigitsValue(digits);
        Some(if t[0] == '-' then -magnitude else magnitude)
    else if !AllDigits(t) then None
    else Some(DigitsValue(t))
  }

  /** Python 2's `int(s)` in base 10: optional surrounding whitespace, an
      optional sign and at least one digit; anything else is a `ValueError`,
      here `None`.  No range check is made. */
  function ParsePort(s: string): (r: Option<int>)
    ensures r.Some? ==> SignedDigits(Strip(s))
    ensures r.Some? && Strip(s)[0] != '-' ==> r.value >= 0
    ensures r.Some? && Strip(s)[0] == '-' ==> r.value <= 0
  {
    ParseSignedDigits(Strip(s))
  }

  /** `int()` accepts a field exactly when, stripped, it is an optional sign
      followed by at least one digit. */
  lemma ParsePortAcceptsExactly(s: string)
    ensures ParsePort(s).Some? <==> SignedDigits(Strip(s))
  {
    assert ParsePort(s) == ParseSignedDigits(Strip(s));
  }

  /** The decimal digits of a natural number, without leading zeros. */
  function Decimal(n: nat): (r: string)
    ensures r != [] && AllDigits(r)
    ensures |r| > 1 ==> r[0] != '0'
  {
    var d := ['0' + (n % 10) as char];
    if n < 10 then d else Decimal(n / 10) + d
  }

  /** `str(p)` for a port number: the sign, then the digits. */
  function FormatPort(p: int): (r: string)
    ensures r != [] && !IsSpace(r[0]) && !IsSpace(r[|r| - 1])
  {
    if p < 0 then "-" + Decimal(-p) else Decimal(p)
  }

  lemma {:induction false} DecimalValue(n: nat)
    ensures DigitsValue(Decimal(n)) == n
  {
    var r := Decimal(n);
    if n >= 10 {
      DecimalValue(n / 10);
      assert r[..|r| - 1] == Decimal(n / 10);
    }
  }

  /** Every port number `str()` can print is read back by `int()`. */
  lemma ParsePortFormat(p: int)
    ensures ParsePort(FormatPort(p)) == Some(p)
  {
    var s := FormatPort(p);
    StripUnchanged(s);
    assert ParsePort(s) == ParseSignedDigits(s);
    if p < 0 {
      assert s[1..] == Decimal(-p);
      DecimalValue(-p);
    } else {
      DecimalValue(p);
    }
  }

  /** `str(5432)`, the port of the test files. */
  lemma FormatPort5432()
    ensures FormatPort(5432) == "5432"
  {
    assert Decimal(5) == "5";
    assert Decimal(54) == "54";
    assert Decimal(543) == "543";
    assert Decimal(5432) == "5432";
  }

  /** The port of the test files is read as 5432, also with whitespace
      around it. */
  lemma ParsePortAccepts()
    ensures ParsePort("5432") == Some(5432)
    ensures ParsePort(" 5432 ") == Some(5432)
  {
    FormatPort5432();
    ParsePortFormat(5432);
    var s := " 5432 ";
    assert s[1..] == "5432 " && "5432 "[..4] == "5432";
    assert LStrip(s) == "5432 ";
    assert RStrip("5432 ") == "5432";
  }

  /** A sign needs a digit after it; `+` keeps the value and `-0` is zero.
      Whitespace between the sign and the digits is rejected. */
  lemma ParsePortSigns()
    ensures ParsePort("+5") == Some(5)
    ensures ParsePort("-0") == Some(0)
    ensures ParsePort("-") == None
    ensures ParsePort("- 5") == None
  {
    StripUnchanged("+5");
    StripUnchanged("-0");
    StripUnchanged("- 5");
    assert "+5"[1..] == "5" && "-0"[1..] == "0";
    assert DigitsValue("5") == 5 by { assert "5"[..0] == ""; }
    assert DigitsValue("0") == 0 by { assert "0"[..0] == ""; }
    assert !IsDigit("- 5"[1]);
  }

  /** `int()` rejects a trailing letter, an empty field and the wildcard. */
  lemma ParsePortRejects()
    ensures ParsePort("5432tt") == None
    ensures ParsePort("") == None
    ensures ParsePort("*") == None
  {
    StripUnchanged("5432tt");
    assert !IsDigit("5432tt"[4]);
    StripUnchanged("*");
  }

  // ---------------------------------------------------------------------------
  // One line

  /** What the loop body of `entries` does with one raw line. */
  datatype LineOutcome =
    | Blank
    | Comment
    | WrongFieldCount(count: nat)
    | InvalidPort(port: string)
    | Parsed(entry: PgPassEntry)

  /** Fields 1, 3 and 4: exactly `*` is the wildcard, anything else is
      unescaped. */
  function ResolveField(raw: string): (r: Option<string>)
    ensures r.None? <==> raw == "*"
    ensures r.Some? ==> r.value == Unescape(raw)
  {
    if raw == "*" then None else Some(Unescape(raw))
  }

  /** Parse one raw line as the loop body of `PgPassFile.entries` does: a
      line of whitespace is blank, a line whose first visible character is
      `#` a comment; a wrong field count can only be too few fields, and a
      rejected port is never the wildcard. */
  function ParseLine(raw: string): (r: LineOutcome)
    ensures r.Blank? <==> AllSpace(raw)
    ensures r.Comment? <==> !AllSpace(raw) && Strip(raw)[0] == '#'
    ensures r.WrongFieldCount? ==> 1 <= r.count < 5
    ensures r.InvalidPort? ==> r.port != "*" && ParsePort(r.port).None?
  {
    var line := Strip(raw);
    if line == [] then Blank
    else if line[0] == '#' then Comment
    else
      var fields := SplitFields(line, 4);
      if |fields| != 5 then WrongFieldCount(|fields|)
      else if fields[1] != "*" && ParsePort(fields[1]).None? then InvalidPort(fields[1])
      else
        Parsed(PgPassEntry(
          ResolveField(fields[0]),
          if fields[1] == "*" then None else ParsePort(fields[1]),
          ResolveField(fields[2]),
          ResolveField(fields[3]),
          Unescape(fields[4])))
  }

  /** `strip` runs before anything else, so whitespace at the end of a line
      is lost, even when it belongs to the password. */
  lemma ParseLineIgnoresTrailingSpace(raw: string, c: char)
    requires IsSpace(c)
    ensures ParseLine(raw + [c]) == ParseLine(raw)
  {
    StripSnocSpace(raw, c);
  }

  // ---------------------------------------------------------------------------
  // Writing a line: the inverse of `ParseLine`

  /** A field value the format can write so that it reads back: not the
      literal `*` (which reads as the wildcard) and not ending in a
      backslash (whose escape would hide the colon after it). */
  predicate Writable(v: string) {
    v != "*" && (v == [] || v[|v| - 1] != '\\')
  }

  /** `*` for the wildcard, the escaped value otherwise. */
  function FormatField(f: Option<string>): (r: string)
    ensures f.None? ==> r == "*"
  {
    if f.None? then "*" else Escape(f.value)
  }

  /** The line a credential-file writer puts down for an entry. */
  function FormatLine(e: PgPassEntry): string {
    FormatField(e.hostname) + ":"
      + (if e.port.None? then "*" else FormatPort(e.port.value)) + ":"
      + FormatField(e.database) + ":"
      + FormatField(e.username) + ":"
      + Escape(e.password)
  }

  /** The entries `FormatLine` writes so that they read back: every set key
      field is writable, the line does not start with whitespace or `#`,
      and the password does not end in whitespace (`strip` would eat it). */
  predicate LineWritable(e: PgPassEntry) {
    (e.hostname.Some? ==>
       Writable(e.hostname.value)
       && (e.hostname.value == [] || (!IsSpace(e.hostname.value[0]) && e.hostname.value[0] != '#')))
    && (e.database.Some? ==> Writable(e.database.value))
    && (e.username.Some? ==> Writable(e.username.value))
    && (e.password == [] || !IsSpace(e.password[|e.password| - 1]))
  }

  /** The first and last characters of an escaped value. */
  lemma {:induction false} EscapeEnds(v: string)
    ensures Escape(v) == [] <==> v == []
    ensures v != [] ==> Escape(v)[0] == v[0] || Escape(v)[0] == '\\'
    ensures v != [] ==> Escape(v)[|Escape(v)| - 1] == v[|v| - 1]
  {
    if v != [] {
      EscapeEnds(v[1..]);
      if |v| > 1 {
        assert v[1..][|v| - 2] == v[|v| - 1];
      }
    }
  }

  /** A writable key field can be followed by a separator and resolves back
      to itself. */
  lemma FormatFieldResolves(f: Option<string>)
    requires f.Some? ==> Writable(f.value)
    ensures EndsBeforeSeparator(FormatField(f))
    ensures ResolveField(FormatField(f)) == f
  {
    if f.Some? {
      var v := f.value;
      EscapeHasNoSeparator(v);
      EscapeEnds(v);
      UnescapeEscape(v);
      UnescapePlain("*");
    } else {
      assert !IsSeparator("*", 0);
    }
  }

  /** The port field: `*` for the wildcard, the decimal otherwise. */
  function FormatPortField(p: Option<int>): (r: string)
    ensures p.None? ==> r == "*"
  {
    if p.None? then "*" else FormatPort(p.value)
  }

  /** A colon behind a backslash is not a separator, so a field holding
      only escaped colons splits nowhere. */
  lemma EscapedColonNoSeparator(a: string, b: string)
    requires ':' !in a && ':' !in b
    ensures NoSeparator(a + "\\:" + b)
  {
    var s := a + "\\:" + b;
    forall i | 0 <= i < |s| ensures !IsSeparator(s, i) {
      if i < |a| {
        assert s[i] == a[i] && a[i] in a;
      } else if i > |a| + 1 {
        assert s[i] == b[i - |a| - 2] && b[i - |a| - 2] in b;
      }
    }
  }

  /** A colon after an escaped backslash is not a separator either, since
      the character before it is a backslash; the field keeps the colon and
      unescapes it, so the backslash written before it is lost. */
  lemma BackslashPairBeforeColon()
    ensures SplitFields("a\\\\:b", 4) == ["a\\\\:b"]
    ensures Unescape("a\\\\:b") == "a:b"
  {
    assert "a\\\\:b" == "a\\" + "\\:" + "b";
    EscapedColonNoSeparator("a\\", "b");
    assert "a\\\\:b" == "a" + "\\" + "\\:b";
  }

  /** A string without colons holds no separator. */
  lemma NoColonNoSeparator(s: string)
    requires ':' !in s
    ensures NoSeparator(s)
  {
    forall i | 0 <= i < |s| ensures !IsSeparator(s, i) {
      assert s[i] in s;
    }
  }

  /** A printed port holds only a sign and digits. */
  lemma FormatPortNoColon(n: int)
    ensures ':' !in FormatPort(n)
  {
    var ds := Decimal(if n < 0 then -n else n);
    assert FormatPort(n) == (if n < 0 then "-" else "") + ds;
  }

  /** The port field can be followed by a separator and reads back as the
      same port. */
  lemma FormatPortFieldResolves(p: Option<int>)
    ensures EndsBeforeSeparator(FormatPortField(p))
    ensures FormatPortField(p) == "*" <==> p.None?
    ensures p.Some? ==> ParsePort(FormatPortField(p)) == p
  {
    if p.Some? {
      ParsePortFormat(p.value);
      FormatPortNoColon(p.value);
    }
    NoColonNoSeparator(FormatPortField(p));
  }

  /** Five fields joined with colons. */
  lemma JoinFive(a: string, b: string, c: string, d: string, e: string)
    ensures JoinFields([a, b, c, d, e]) == a + ":" + b + ":" + c + ":" + d + ":" + e
  {
    var fields := [a, b, c, d, e];
    assert fields[1..] == [b, c, d, e];
    assert [b, c, d, e][1..] == [c, d, e];
    assert [c, d, e][1..] == [d, e];
    assert [d, e][1..] == [e];
    assert JoinFields([d, e]) == d + ":" + e;
    assert JoinFields([c, d, e]) == c + ":" + (d + ":" + e);
    assert JoinFields([b, c, d, e]) == b + ":" + (c + ":" + (d + ":" + e));
  }

  /** Five fields whose first four can each be followed by a separator. */
  lemma SplittableFive(a: string, b: string, c: string, d: string, e: string)
    requires EndsBeforeSeparator(a) && EndsBeforeSeparator(b)
    requires EndsBeforeSeparator(c) && EndsBeforeSeparator(d)
    ensures Splittable([a, b, c, d, e])
  {
    assert [a, b, c, d, e][1..] == [b, c, d, e];
    assert [b, c, d, e][1..] == [c, d, e];
    assert [c, d, e][1..] == [d, e];
    assert Splittable([d, e]);
  }

  /** The first and last characters of five fields joined with colons. */
  lemma JoinedEnds(a: string, b: string, c: string, d: string, e: string)
    ensures var s := a + ":" + b + ":" + c + ":" + d + ":" + e;
            s[0] == (if a == [] then ':' else a[0])
            && s[|s| - 1] == (if e == [] then ':' else e[|e| - 1])
  {
    var s := a + ":" + b + ":" + c + ":" + d + ":" + e;
    var front := a + ":" + b + ":" + c + ":" + d + ":";
    assert s == a + (":" + b + ":" + c + ":" + d + ":" + e);
    assert s == front + e;
  }

  /** The line written for a writable entry starts and ends with a
      character that is neither whitespace nor, at the start, `#`. */
  lemma FormatLineEnds(e: PgPassEntry)
    requires LineWritable(e)
    ensures var line := FormatLine(e);
            !IsSpace(line[0]) && line[0] != '#' && !IsSpace(line[|line| - 1])
  {
    JoinedEnds(FormatField(e.hostname), FormatPortField(e.port), FormatField(e.database),
               FormatField(e.username), Escape(e.password));
    if e.hostname.Some? {
      EscapeEnds(e.hostname.value);
    }
    EscapeEnds(e.password);
  }

  /** The line written for a writable entry is split back into the fields
      it was written from, and `strip` leaves it alone. */
  lemma FormatLineFields(e: PgPassEntry)
    requires LineWritable(e)
    ensures Strip(FormatLine(e)) == FormatLine(e)
    ensures FormatLine(e)[0] != '#'
    ensures SplitFields(FormatLine(e), 4) ==
              [FormatField(e.hostname), FormatPortField(e.port), FormatField(e.database),
               FormatField(e.username), Escape(e.password)]
  {
    var h := FormatField(e.hostname);
    var p := FormatPortField(e.port);
    var d := FormatField(e.database);
    var u := FormatField(e.username);
    var w := Escape(e.password);
    var line := FormatLine(e);
    assert line == h + ":" + p + ":" + d + ":" + u + ":" + w;
    FormatFieldResolves(e.hostname);
    FormatPortFieldResolves(e.port);
    FormatFieldResolves(e.database);
    FormatFieldResolves(e.username);
    JoinFive(h, p, d, u, w);
    SplittableFive(h, p, d, u, w);
    SplitFieldsOfJoin([h, p, d, u, w], 4);
    FormatLineEnds(e);
    StripUnchanged(line);
  }

  /** Every line `FormatLine` writes for a writable entry parses back to
      that entry. */
  lemma ParseFormatLine(e: PgPassEntry)
    requires LineWritable(e)
    ensures ParseLine(FormatLine(e)) == Parsed(e)
  {
    FormatLineFields(e);
    FormatLineEnds(e);
    FormattedFieldsResolve(e);
    ParseFiveFields(FormatLine(e), [FormatField(e.hostname), FormatPortField(e.port),
      FormatField(e.database), FormatField(e.username), Escape(e.password)]);
  }

  /** Five fields joined with colons, the first four of which hold no
      separator and do not end in a backslash, split back into those fields;
      when the line neither starts nor ends with whitespace and does not
      start with `#`, `strip` leaves it alone and it is not a comment. */
  lemma FiveFieldLine(a: string, b: string, c: string, d: string, e: string)
    requires EndsBeforeSeparator(a) && EndsBeforeSeparator(b)
    requires EndsBeforeSeparator(c) && EndsBeforeSeparator(d)
    requires a != [] && !IsSpace(a[0]) && a[0] != '#'
    requires e != [] && !IsSpace(e[|e| - 1])
    ensures var line := JoinFields([a, b, c, d, e]);
            Strip(line) == line && line != [] && line[0] != '#'
            && SplitFields(line, 4) == [a, b, c, d, e]
  {
    JoinFive(a, b, c, d, e);
    JoinedEnds(a, b, c, d, e);
    SplittableFive(a, b, c, d, e);
    SplitFieldsOfJoin([a, b, c, d, e], 4);
    StripUnchanged(JoinFields([a, b, c, d, e]));
  }

  /** A stripped, non-comment line of five fields whose port `int()`
      rejects is skipped for its port. */
  lemma ParseRejectedPort(line: string, fields: seq<string>)
    requires Strip(line) == line && line != [] && line[0] != '#'
    requires SplitFields(line, 4) == fields && |fields| == 5
    requires fields[1] != "*" && ParsePort(fields[1]).None?
    ensures ParseLine(line) == InvalidPort(fields[1])
  {
  }

  /** A stripped, non-comment line that splits into five fields with an
      acceptable port is parsed into the entry those fields resolve to. */
  lemma ParseFiveFields(line: string, fields: seq<string>)
    requires Strip(line) == line && line != [] && line[0] != '#'
    requires SplitFields(line, 4) == fields && |fields| == 5
    requires fields[1] == "*" || ParsePort(fields[1]).Some?
    ensures ParseLine(line) == Parsed(PgPassEntry(
              ResolveField(fields[0]),
              if fields[1] == "*" then None else ParsePort(fields[1]),
              ResolveField(fields[2]),
              ResolveField(fields[3]),
              Unescape(fields[4])))
  {
  }

  /** Each field `FormatLine` writes resolves back to the entry's value. */
  lemma FormattedFieldsResolve(e: PgPassEntry)
    requires LineWritable(e)
    ensures ResolveField(FormatField(e.hostname)) == e.hostname
    ensures FormatPortField(e.port) == "*" <==> e.port.None?
    ensures e.port.Some? ==> ParsePort(FormatPortField(e.port)) == e.port
    ensures ResolveField(FormatField(e.database)) == e.database
    ensures ResolveField(FormatField(e.username)) == e.username
    ensures Unescape(Escape(e.password)) == e.password
  {
    FormatFieldResolves(e.hostname);
    FormatPortFieldResolves(e.port);
    FormatFieldResolves(e.database);
    FormatFieldResolves(e.username);
    UnescapeEscape(e.password);
  }
}
