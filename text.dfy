/** The three Python string built-ins the bridge relies on: `str.split` with
    a one-character separator, `str.lower`, and `int(str)` in base 10. */
module Text {
  import opened Wrappers

  // ---------------------------------------------------------------------
  // str.split(sep)
  // ---------------------------------------------------------------------

  /** `s.split(sep)`: the maximal separator-free pieces of `s`, in order.
      Empty pieces are kept, so `"".split("/") == [""]` and
      `"a//b".split("/") == ["a", "", "b"]`. */
  function Split(s: string, sep: char): (parts: seq<string>)
    ensures |parts| >= 1
    decreases |s|
  {
    if s == [] then [[]]
    else
      var rest := Split(s[1..], sep);
      if s[0] == sep then [[]] + rest
      else [[s[0]] + rest[0]] + rest[1..]
  }

  /** `sep.join(parts)`, the inverse of `Split`. */
  function Join(parts: seq<string>, sep: char): string
    requires |parts| >= 1
    decreases |parts|
  {
    if |parts| == 1 then parts[0] else parts[0] + [sep] + Join(parts[1..], sep)
  }

  ghost predicate SeparatorFree(parts: seq<string>, sep: char) {
    forall i :: 0 <= i < |parts| ==> sep !in parts[i]
  }

  /** Joining the pieces again gives back the original string. */
  lemma {:induction false} JoinSplit(s: string, sep: char)
    ensures Join(Split(s, sep), sep) == s
    decreases |s|
  {
    if s != [] {
      var rest := Split(s[1..], sep);
      JoinSplit(s[1..], sep);
      if s[0] == sep {
        assert ([[]] + rest)[1..] == rest;
      } else if |rest| > 1 {
        assert ([[s[0]] + rest[0]] + rest[1..])[1..] == rest[1..];
        assert Join(rest, sep) == rest[0] + [sep] + Join(rest[1..], sep);
      }
    }
  }

  /** No piece produced by `Split` contains the separator. */
  lemma {:induction false} SplitSeparatorFree(s: string, sep: char)
    ensures SeparatorFree(Split(s, sep), sep)
    decreases |s|
  {
    if s != [] {
      var rest := Split(s[1..], sep);
      SplitSeparatorFree(s[1..], sep);
      var parts := Split(s, sep);
      forall i | 0 <= i < |parts| ensures sep !in parts[i] {
        if s[0] == sep {
          if i > 0 { assert parts[i] == rest[i - 1]; }
        } else if i == 0 {
          assert parts[0] == [s[0]] + rest[0];
        } else {
          assert parts[i] == rest[i];
        }
      }
    }
  }

  /** A string without the separator is a single piece. */
  lemma {:induction false} SplitWithoutSeparator(s: string, sep: char)
    requires sep !in s
    ensures Split(s, sep) == [s]
    decreases |s|
  {
    if s != [] {
      assert s[0] != sep;
      SplitWithoutSeparator(s[1..], sep);
      assert [s[0]] + s[1..] == s;
    }
  }

  /** Splitting at one separator splits the two sides independently. */
  lemma {:induction false} SplitAtSeparator(a: string, b: string, sep: char)
    ensures Split(a + [sep] + b, sep) == Split(a, sep) + Split(b, sep)
    decreases |a|
  {
    var s := a + [sep] + b;
    if a == [] {
      assert s == [sep] + b;
      SplitStepAt(s, sep);
    } else {
      assert s[0] == a[0];
      assert s[1..] == a[1..] + [sep] + b;
      SplitAtSeparator(a[1..], b, sep);
      var ra, rb := Split(a[1..], sep), Split(b, sep);
      if a[0] == sep {
        SplitStepAt(a, sep);
        SplitStepAt(s, sep);
        assert [[]] + (ra + rb) == ([[]] + ra) + rb;
      } else {
        SplitStepOther(a, sep);
        SplitStepOther(s, sep);
        ConsPiece(a[0], ra, rb);
      }
    }
  }

  /** Extending the first piece commutes with appending more pieces. */
  lemma ConsPiece(c: char, ra: seq<string>, rb: seq<string>)
    requires |ra| >= 1
    ensures [[c] + (ra + rb)[0]] + (ra + rb)[1..] == ([[c] + ra[0]] + ra[1..]) + rb
  {
    assert (ra + rb)[0] == ra[0];
    assert (ra + rb)[1..] == ra[1..] + rb;
  }

  /** One unfolding of `Split` at a leading separator. */
  lemma SplitStepAt(s: string, sep: char)
    requires s != [] && s[0] == sep
    ensures Split(s, sep) == [[]] + Split(s[1..], sep)
  {
  }

  /** One unfolding of `Split` at a leading character other than the
      separator: it joins the first piece of the rest. */
  lemma SplitStepOther(s: string, sep: char)
    requires s != [] && s[0] != sep
    ensures Split(s, sep) == [[s[0]] + Split(s[1..], sep)[0]] + Split(s[1..], sep)[1..]
  {
  }

  /** Splitting joined separator-free pieces gives back the pieces. */
  lemma {:induction false} SplitJoin(parts: seq<string>, sep: char)
    requires |parts| >= 1
    requires SeparatorFree(parts, sep)
    ensures Split(Join(parts, sep), sep) == parts
    decreases |parts|
  {
    SplitWithoutSeparator(parts[0], sep);
    if |parts| > 1 {
      SplitJoin(parts[1..], sep);
      SplitAtSeparator(parts[0], Join(parts[1..], sep), sep);
      assert [parts[0]] + parts[1..] == parts;
    }
  }

  // ---------------------------------------------------------------------
  // str.lower()
  // ---------------------------------------------------------------------

  predicate IsAsciiLower(c: char) { 'a' <= c <= 'z' }

  function LowerChar(c: char): char {
    if 'A' <= c <= 'Z' then (c as int + 32) as char else c
  }

  function UpperChar(c: char): char {
    if 'a' <= c <= 'z' then (c as int - 32) as char else c
  }

  /** `s.lower()` on the ASCII letters; every other character is kept. */
  function Lower(s: string): string {
    seq(|s|, i requires 0 <= i < |s| => LowerChar(s[i]))
  }

  /** `p` spells the lower-case word `w` in any mixture of cases. */
  ghost predicate IsCasingOf(p: string, w: string) {
    |p| == |w| && forall i :: 0 <= i < |p| ==> p[i] == w[i] || p[i] == UpperChar(w[i])
  }

  /** Comparing `p.lower()` with a lower-case word matches exactly the
      casings of that word; this is what makes the command payload
      case-insensitive. */
  lemma LowerMatchesCasings(p: string, w: string)
    requires forall i :: 0 <= i < |w| ==> IsAsciiLower(w[i])
    ensures Lower(p) == w <==> IsCasingOf(p, w)
  {
    if Lower(p) == w {
      forall i | 0 <= i < |p| ensures p[i] == w[i] || p[i] == UpperChar(w[i]) {
        assert LowerChar(p[i]) == w[i];
      }
    }
    if IsCasingOf(p, w) {
      forall i | 0 <= i < |p| ensures Lower(p)[i] == w[i] {
        assert IsAsciiLower(w[i]);
      }
    }
  }

  /** The four spellings that `.lower()` turns into "on". */
  lemma LowerIsOn(p: string)
    ensures Lower(p) == "on" <==> p in {"on", "oN", "On", "ON"}
  {
    LowerMatchesCasings(p, "on");
    if IsCasingOf(p, "on") {
      assert p == [p[0], p[1]];
    }
  }

  /** The eight spellings that `.lower()` turns into "off". */
  lemma LowerIsOff(p: string)
    ensures Lower(p) == "off" <==> p in {"off", "ofF", "oFf", "oFF", "Off", "OfF", "OFf", "OFF"}
  {
    LowerMatchesCasings(p, "off");
    if IsCasingOf(p, "off") {
      assert p == [p[0], p[1], p[2]];
    }
  }

  // ---------------------------------------------------------------------
  // int(str), base 10
  // ---------------------------------------------------------------------

  /** The characters Python's `str.isspace` accepts, which `int()` strips
      from both ends of its argument. */
  predicate IsSpace(c: char) {
    || c == ' ' || '\t' <= c <= '\r' || '\U{001c}' <= c <= '\U{001f}'
    || c == '\U{0085}' || c == '\U{00a0}' || c == '\U{1680}' || '\U{2000}' <= c <= '\U{200a}'
    || c == '\U{2028}' || c == '\U{2029}' || c == '\U{202f}' || c == '\U{205f}' || c == '\U{3000}'
  }

  predicate IsDigit(c: char) { '0' <= c <= '9' }

  function TrimStart(s: string): string {
    if s != [] && IsSpace(s[0]) then TrimStart(s[1..]) else s
  }

  function TrimEnd(s: string): string {
    if s != [] && IsSpace(s[|s| - 1]) then TrimEnd(s[..|s| - 1]) else s
  }

  function Strip(s: string): string { TrimEnd(TrimStart(s)) }

  /** Base-10 digits with single underscores between digits, as in `1_000`:
      the form `[0-9](_?[0-9])*`. */
  predicate IsDigitGroup(s: string) {
    && |s| > 0
    && IsDigit(s[0])
    && forall i :: 0 <= i < |s| ==> IsDigit(s[i]) || (s[i] == '_' && i + 1 < |s| && IsDigit(s[i + 1]))
  }

  function DigitValue(c: char): nat
    requires IsDigit(c)
  {
    c as int - '0' as int
  }

  /** The number written by a string of decimal digits; the underscores of
      a digit group are skipped. */
  function DigitsValue(ds: string): nat {
    if ds == [] then 0
    else
      var last := ds[|ds| - 1];
      if IsDigit(last) then DigitsValue(ds[..|ds| - 1]) * 10 + DigitValue(last)
      else DigitsValue(ds[..|ds| - 1])
  }

  /** `int(s)`: `Some(n)` when `s` is an optional sign followed by a digit
      group, surrounded by any whitespace, and `None` where Python raises
      `ValueError`. */
  function ParseInt(s: string): Option<int> {
    var t := Strip(s);
    if |t| > 0 && (t[0] == '+' || t[0] == '-') then
      if IsDigitGroup(t[1..]) then
        var v: int := DigitsValue(t[1..]);
        Some(if t[0] == '-' then -v else v)
      else None
    else if IsDigitGroup(t) then Some(DigitsValue(t))
    else None
  }

  function DigitChar(d: nat): char
    requires d < 10
  {
    ('0' as int + d) as char
  }

  /** `str(n)` for a non-negative integer. */
  function NatToString(n: nat): string
    decreases n
  {
    if n < 10 then [DigitChar(n)] else NatToString(n / 10) + [DigitChar(n % 10)]
  }

  /** `str(n)`. */
  function IntToString(n: int): string {
    if n < 0 then "-" + NatToString(-n) else NatToString(n)
  }

  lemma {:induction false} NatToStringDigits(n: nat)
    ensures |NatToString(n)| > 0
    ensures forall i :: 0 <= i < |NatToString(n)| ==> IsDigit(NatToString(n)[i])
    ensures DigitsValue(NatToString(n)) == n
    decreases n
  {
    if n >= 10 {
      NatToStringDigits(n / 10);
      var s := NatToString(n);
      assert s[..|s| - 1] == NatToString(n / 10);
    }
  }

  lemma StripUnpadded(s: string)
    requires s != [] && !IsSpace(s[0]) && !IsSpace(s[|s| - 1])
    ensures Strip(s) == s
  {
    assert TrimStart(s) == s;
  }

  /** `int(str(n)) == n` for every integer. */
  lemma ParseIntShow(n: int)
    ensures ParseInt(IntToString(n)) == Some(n)
  {
    var m: nat := if n < 0 then -n else n;
    var ds := NatToString(m);
    NatToStringDigits(m);
    var s := IntToString(n);
    if n < 0 {
      assert s == "-" + ds;
      assert s[|s| - 1] == ds[|ds| - 1];
      StripUnpadded(s);
      assert s[1..] == ds;
      assert IsDigitGroup(s[1..]);
    } else {
      StripUnpadded(s);
      assert IsDigitGroup(s);
    }
  }
}
