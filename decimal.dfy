/**
 * Decimal text for integers: `std::to_string` on integral types and the
 * `std::stoi` / `std::stol` family that parse it back. Both are C++ standard
 * library routines that the serialisers of the model rely on.
 */
module Decimal {
  import opened Wrappers

  predicate IsDigit(c: char) { '0' <= c <= '9' }

  predicate AllDigits(s: string) { forall i :: 0 <= i < |s| ==> IsDigit(s[i]) }

  function DigitChar(d: nat): (c: char)
    requires d < 10
    ensures IsDigit(c)
  {
    ('0' as int + d) as char
  }

  function DigitValue(c: char): (d: nat)
    requires IsDigit(c)
    ensures d < 10 && DigitChar(d) == c
  {
    c as int - '0' as int
  }

  /** The decimal digits of `n`, most significant first, with no leading zero. */
  function NatToString(n: nat): (r: string)
    ensures |r| > 0 && AllDigits(r)
    ensures |r| > 1 ==> r[0] != '0'
  {
    if n < 10 then [DigitChar(n)] else NatToString(n / 10) + [DigitChar(n % 10)]
  }

  /** `std::to_string` for a signed integral value. */
  function IntToString(n: int): (r: string)
    ensures |r| > 0
    ensures r[0] == '-' <==> n < 0
  {
    if n < 0 then "-" + NatToString(-n) else NatToString(n)
  }

  /** The value of a string of decimal digits. */
  function DigitsValue(s: string): nat
    requires AllDigits(s)
  {
    if s == [] then 0 else DigitsValue(s[..|s| - 1]) * 10 + DigitValue(s[|s| - 1])
  }

  lemma {:induction false} NatToStringRoundTrip(n: nat)
    ensures DigitsValue(NatToString(n)) == n
  {
    if n >= 10 {
      var s := NatToString(n / 10) + [DigitChar(n % 10)];
      assert s[..|s| - 1] == NatToString(n / 10);
      NatToStringRoundTrip(n / 10);
    }
  }

  /** The length of the longest prefix of `s` made of decimal digits. */
  function LeadingDigits(s: string): (k: nat)
    ensures k <= |s| && AllDigits(s[..k])
    ensures k < |s| ==> !IsDigit(s[k])
  {
    if s == [] || !IsDigit(s[0]) then 0
    else
      var k := 1 + LeadingDigits(s[1..]);
      assert s[..k] == [s[0]] + s[1..][..k - 1];
      k
  }

  predicate IsSpace(c: char) { c == ' ' || c == '\t' || c == '\n' || c == '\r' || c == '\U{B}' || c == '\U{C}' }

  /** `s` without its leading white space, as `strtol` skips it. */
  function SkipSpace(s: string): (r: string)
    ensures |r| <= |s| && r == s[|s| - |r|..]
    ensures r == [] || !IsSpace(r[0])
  {
    if s != [] && IsSpace(s[0]) then SkipSpace(s[1..]) else s
  }

  /**
   * The `std::stoi` family on the range [lo, hi]: leading white space is
   * skipped, an optional sign is read, then the longest run of digits; text
   * after the digits is ignored. No digit at all (`std::invalid_argument`) or
   * a value outside [lo, hi] (`std::out_of_range`) throws, modelled as None.
   */
  function ParseInteger(s: string, lo: int, hi: int): (r: Option<int>)
    ensures r.Some? ==> lo <= r.value <= hi
  {
    var t := SkipSpace(s);
    var neg := |t| > 0 && t[0] == '-';
    var u := if |t| > 0 && (t[0] == '-' || t[0] == '+') then t[1..] else t;
    var k := LeadingDigits(u);
    if k == 0 then None
    else
      var v: int := if neg then 0 - DigitsValue(u[..k]) else DigitsValue(u[..k]);
      if lo <= v <= hi then Some(v) else None
  }

  const INT32_MIN: int := -0x8000_0000
  const INT32_MAX: int := 0x7FFF_FFFF
  const INT64_MIN: int := -0x8000_0000_0000_0000
  const INT64_MAX: int := 0x7FFF_FFFF_FFFF_FFFF

  /** Reading back what `std::to_string` wrote gives the same value. */
  lemma IntToStringRoundTrip(n: int, lo: int, hi: int)
    requires lo <= n <= hi
    ensures ParseInteger(IntToString(n), lo, hi) == Some(n)
  {
    if n < 0 {
      var m: nat := -n;
      var d := NatToString(m);
      NatToStringRoundTrip(m);
      ParseNegatedDigits(d, lo, hi);
      assert ParseInteger("-" + d, lo, hi) == Some(n);
      assert IntToString(n) == "-" + d;
    } else {
      var d := NatToString(n);
      ParseDigits(d, lo, hi);
      NatToStringRoundTrip(n);
      assert IntToString(n) == d;
    }
  }

  lemma ParseDigits(d: string, lo: int, hi: int)
    requires |d| > 0 && AllDigits(d)
    ensures ParseInteger(d, lo, hi) == if lo <= DigitsValue(d) <= hi then Some(DigitsValue(d)) else None
  {
    assert SkipSpace(d) == d;
    LeadingDigitsOfDigits(d);
    assert d[..|d|] == d;
    var t := SkipSpace(d);
    assert !(|t| > 0 && t[0] == '-');
    assert !(|t| > 0 && (t[0] == '-' || t[0] == '+'));
    var k := LeadingDigits(t);
    assert k == |d|;
    var v: int := DigitsValue(t[..k]);
    assert v == DigitsValue(d);
  }

  lemma ParseNegatedDigits(d: string, lo: int, hi: int)
    requires |d| > 0 && AllDigits(d)
    ensures var v := 0 - DigitsValue(d);
      ParseInteger("-" + d, lo, hi) == if lo <= v <= hi then Some(v) else None
  {
    var s := "-" + d;
    MinusNotSkipped(d);
    LeadingDigitsOfDigits(d);
    ParseAfterMinus(s, d, lo, hi);
  }

  lemma MinusNotSkipped(d: string)
    ensures SkipSpace("-" + d) == "-" + d && ("-" + d)[0] == '-' && ("-" + d)[1..] == d
  {
    var s := "-" + d;
    assert s[0] == '-';
  }

  /** A text starting with '-' followed by digits only parses as the negated value of the digits. */
  lemma ParseAfterMinus(s: string, d: string, lo: int, hi: int)
    requires SkipSpace(s) == s && |s| > 0 && s[0] == '-' && s[1..] == d
    requires AllDigits(d) && LeadingDigits(d) == |d| > 0
    ensures var v := 0 - DigitsValue(d);
      ParseInteger(s, lo, hi) == if lo <= v <= hi then Some(v) else None
  {
    var t := SkipSpace(s);
    var u := t[1..];
    assert u == d;
    var k := LeadingDigits(u);
    assert u[..k] == d;
    var v: int := 0 - DigitsValue(u[..k]);
    assert v == 0 - DigitsValue(d);
  }

  lemma {:induction false} LeadingDigitsOfDigits(s: string)
    requires AllDigits(s)
    ensures LeadingDigits(s) == |s|
  {
    if s != [] {
      LeadingDigitsOfDigits(s[1..]);
    }
  }
}
