/** The few Python string operations the server relies on: `str.isspace`,
    `str.strip`, `str.replace` and the decimal text of an `int` in an f-string. */
module PyStr {

  /** `c.isspace()` in Python: the characters whose bidirectional class is
      WS, B or S, or whose general category is Zs. */
  predicate IsSpace(c: char)
    ensures c in " \t\n\r\U{0B}\U{0C}" ==> IsSpace(c)
    ensures IsSpace(c) ==> !('0' <= c <= '9') && !('A' <= c <= 'Z') && !('a' <= c <= 'z') && c <= '\U{3000}'
  {
    ('\t' <= c <= '\r') || ('\U{1C}' <= c <= '\U{1F}') || c == ' '
    || c == '\U{85}' || c == '\U{A0}' || c == '\U{1680}'
    || ('\U{2000}' <= c <= '\U{200A}') || c == '\U{2028}' || c == '\U{2029}'
    || c == '\U{202F}' || c == '\U{205F}' || c == '\U{3000}'
  }

  /** Every character of `s` is whitespace (vacuously so for ""). */
  predicate Blank(s: string) {
    forall i :: 0 <= i < |s| ==> IsSpace(s[i])
  }

  /** `s.lstrip()`: the longest suffix that does not start with whitespace. */
  function StripStart(s: string): (r: string)
    ensures |r| <= |s| && r == s[|s| - |r|..]
    ensures Blank(s[..|s| - |r|])
    ensures r != [] ==> !IsSpace(r[0])
  {
    if s != [] && IsSpace(s[0]) then StripStart(s[1..]) else s
  }

  /** `s.rstrip()`: the longest prefix that does not end with whitespace. */
  function StripEnd(s: string): (r: string)
    ensures |r| <= |s| && r == s[..|r|]
    ensures Blank(s[|r|..])
    ensures r != [] ==> !IsSpace(r[|r| - 1])
  {
    if s != [] && IsSpace(s[|s| - 1]) then
      var r := StripEnd(s[..|s| - 1]);
      assert s[|r|..] == s[..|s| - 1][|r|..] + [s[|s| - 1]];
      r
    else s
  }

  /** `s.strip()`: what is left neither starts nor ends with whitespace. */
  function Strip(s: string): (r: string)
    ensures |r| <= |s|
    ensures r != [] ==> !IsSpace(r[0]) && !IsSpace(r[|r| - 1])
  {
    StripEnd(StripStart(s))
  }

  /** `s.strip()` is empty exactly when `s` holds nothing but whitespace. */
  lemma StripEmptyIffBlank(s: string)
    ensures Strip(s) == [] <==> Blank(s)
  {
  }

  /** `s.replace(pat, rep)`: scans left to right and replaces every
      non-overlapping occurrence of the non-empty `pat`. */
  function Replace(s: string, pat: string, rep: string): (r: string)
    requires |pat| > 0
    ensures |pat| == |rep| ==> |r| == |s|
    ensures |pat| <= |rep| ==> |r| >= |s|
    decreases |s|
  {
    if |s| < |pat| then s
    else if s[..|pat|] == pat then rep + Replace(s[|pat|..], pat, rep)
    else [s[0]] + Replace(s[1..], pat, rep)
  }

  /** `pat` occurs in `s` starting at index `i`. */
  predicate OccursAt(s: string, pat: string, i: nat) {
    i + |pat| <= |s| && s[i..i + |pat|] == pat
  }

  /** `s` contains no occurrence of `pat`. */
  predicate Absent(s: string, pat: string) {
    forall i: nat :: i <= |s| ==> !OccursAt(s, pat, i)
  }

  /** Replacing a pattern that does not occur leaves the text unchanged. */
  lemma {:induction false} ReplaceAbsent(s: string, pat: string, rep: string)
    requires |pat| > 0 && Absent(s, pat)
    ensures Replace(s, pat, rep) == s
  {
    if |s| >= |pat| {
      assert !OccursAt(s, pat, 0);
      assert s[0..|pat|] == s[..|pat|];
      assert Absent(s[1..], pat) by {
        forall i: nat | i <= |s[1..]|
          ensures !OccursAt(s[1..], pat, i)
        {
          assert !OccursAt(s, pat, i + 1);
          if i + |pat| <= |s[1..]| {
            assert s[1..][i..i + |pat|] == s[i + 1..i + 1 + |pat|];
          }
        }
      }
      ReplaceAbsent(s[1..], pat, rep);
    }
  }

  /** Two texts that each run up to a `stop` character they do not contain
      split the same way when joined with what follows them. */
  lemma SplitAtStop(d1: string, r1: string, d2: string, r2: string, stop: char)
    requires stop !in d1 && stop !in d2
    requires r1 != [] && r2 != [] && r1[0] == stop && r2[0] == stop
    requires d1 + r1 == d2 + r2
    ensures d1 == d2 && r1 == r2
  {
    assert d1 == (d1 + r1)[..|d1|] && d2 == (d2 + r2)[..|d2|];
    assert r1 == (d1 + r1)[|d1|..] && r2 == (d2 + r2)[|d2|..];
  }

  /** A decimal digit character. */
  predicate IsDigit(c: char) {
    '0' <= c <= '9'
  }

  /** Every character of `s` is a decimal digit. */
  predicate AllDigits(s: string) {
    forall i :: 0 <= i < |s| ==> IsDigit(s[i])
  }

  function DigitChar(d: nat): (c: char)
    requires d < 10
    ensures IsDigit(c) && (c as int) - ('0' as int) == d
  {
    ['0', '1', '2', '3', '4', '5', '6', '7', '8', '9'][d]
  }

  /** The decimal text of a natural number, most significant digit first. */
  function NatToDecimal(n: nat): (r: string)
    ensures r != [] && AllDigits(r)
    ensures |r| > 1 ==> r[0] != '0'
  {
    if n < 10 then [DigitChar(n)] else NatToDecimal(n / 10) + [DigitChar(n % 10)]
  }

  /** `str(i)` of a Python `int`, as an f-string writes it. */
  function IntToDecimal(i: int): (r: string)
    ensures r != [] && (r[0] == '-' <==> i < 0)
  {
    if i < 0 then "-" + NatToDecimal(-i) else NatToDecimal(i)
  }

  /** The value of a string of decimal digits. */
  function DecimalToNat(s: string): nat
    requires AllDigits(s)
  {
    if s == [] then 0
    else 10 * DecimalToNat(s[..|s| - 1]) + ((s[|s| - 1] as int) - ('0' as int))
  }

  /** Text that `int(...)` accepts in the form `str` produces: digits with an optional minus. */
  predicate IsIntText(s: string) {
    if s != [] && s[0] == '-' then s[1..] != [] && AllDigits(s[1..]) else s != [] && AllDigits(s)
  }

  /** `int(s)` on text of that form. */
  function DecimalToInt(s: string): int
    requires IsIntText(s)
  {
    if s[0] == '-' then 0 - DecimalToNat(s[1..]) else DecimalToNat(s)
  }

  lemma {:induction false} NatDecimalRoundTrip(n: nat)
    ensures DecimalToNat(NatToDecimal(n)) == n
  {
    if n >= 10 {
      var r := NatToDecimal(n);
      assert r[..|r| - 1] == NatToDecimal(n / 10);
      NatDecimalRoundTrip(n / 10);
    }
  }

  /** `int(str(i)) == i`. */
  lemma IntDecimalRoundTrip(i: int)
    ensures IsIntText(IntToDecimal(i)) && DecimalToInt(IntToDecimal(i)) == i
  {
    if i < 0 {
      var d := NatToDecimal(-i);
      assert IntToDecimal(i) == "-" + d;
      assert ("-" + d)[0] == '-' && ("-" + d)[1..] == d;
      NatDecimalRoundTrip(-i);
    } else {
      NatDecimalRoundTrip(i);
    }
  }

  /** Different integers have different decimal texts. */
  lemma IntToDecimalInjective(a: int, b: int)
    requires IntToDecimal(a) == IntToDecimal(b)
    ensures a == b
  {
    IntDecimalRoundTrip(a);
    IntDecimalRoundTrip(b);
  }

  /** The decimal text of an integer holds only a minus sign and digits. */
  lemma IntToDecimalChars(i: int)
    ensures IntToDecimal(i) != []
    ensures forall k :: 0 <= k < |IntToDecimal(i)| ==> IntToDecimal(i)[k] == '-' || IsDigit(IntToDecimal(i)[k])
  {
  }
}
