/**
 * `common/mock_pickler.h`: `MockPickler<T>` turns a value into a string
 * (`Dump`) and back (`Load`) in the plainest way. A `Load` that throws
 * (`std::stoi` and friends on bad input) returns `None`; a failed glog
 * `CHECK` returns `CheckFailed`. Floating-point picklers are not part of
 * this model.
 */
module MockPickler {
  import opened Wrappers
  import opened Decimal

  const UINT64_MODULUS: int := 0x1_0000_0000_0000_0000
  const UINT64_MAX: int := UINT64_MODULUS - 1

  /** `MockPickler<std::string>`: both directions are the identity. */
  function DumpString(s: string): string
  {
    s
  }

  function LoadString(s: string): string
  {
    s
  }

  /** A string round-trips in both directions, the empty string included. */
  lemma StringRoundTrip(s: string)
    ensures LoadString(DumpString(s)) == s && DumpString(LoadString(s)) == s
  {
  }

  /** `MockPickler<char>::Dump`: the one-character string. */
  function DumpChar(c: char): (r: string)
    ensures |r| == 1
  {
    [c]
  }

  /**
   * `MockPickler<char>::Load`: `s[0]`, which for an empty `std::string` is
   * its terminating null character.
   */
  function LoadChar(s: string): char
  {
    if |s| == 0 then '\0' else s[0]
  }

  /** A character round-trips; loading reads only the first character. */
  lemma CharRoundTrip(c: char, rest: string)
    ensures LoadChar(DumpChar(c)) == c
    ensures LoadChar(DumpChar(c) + rest) == c
    ensures LoadChar("") == '\0'
  {
  }

  /** `MockPickler<bool>::Dump`. */
  function DumpBool(b: bool): (r: string)
    ensures r == "true" || r == "false"
  {
    if b then "true" else "false"
  }

  /** `MockPickler<bool>::Load`: CHECKs that the string is "true" or "false". */
  function LoadBool(s: string): (r: Checked<bool>)
    ensures r.CheckFailed? <==> s != "true" && s != "false"
    ensures r.Returned? ==> DumpBool(r.value) == s
  {
    if s == "true" || s == "false" then Returned(s == "true") else CheckFailed
  }

  lemma BoolRoundTrip(b: bool)
    ensures LoadBool(DumpBool(b)) == Returned(b)
  {
  }

  /** `MockPickler<int>`, `<long>` and `<long long>`: `std::to_string` and `std::stoi` / `stol` / `stoll`. */
  function DumpInt(x: int): string
  {
    IntToString(x)
  }

  function LoadInt(s: string): (r: Option<int>)
    ensures r.Some? ==> INT32_MIN <= r.value <= INT32_MAX
  {
    ParseInteger(s, INT32_MIN, INT32_MAX)
  }

  function LoadLong(s: string): (r: Option<int>)
    ensures r.Some? ==> INT64_MIN <= r.value <= INT64_MAX
  {
    ParseInteger(s, INT64_MIN, INT64_MAX)
  }

  /**
   * `std::stoul` / `std::stoull`: a magnitude above the maximum throws, and
   * a leading minus sign negates modulo 2^64, as `strtoul` does.
   */
  function LoadUnsigned(s: string): (r: Option<int>)
    ensures r.Some? ==> 0 <= r.value <= UINT64_MAX
  {
    var v := ParseInteger(s, -UINT64_MAX, UINT64_MAX);
    if v.Some? then Some(v.value % UINT64_MODULUS) else None
  }

  /** Every `int` round-trips through its decimal text. */
  lemma IntRoundTrip(x: int)
    requires INT32_MIN <= x <= INT32_MAX
    ensures LoadInt(DumpInt(x)) == Some(x)
  {
    IntToStringRoundTrip(x, INT32_MIN, INT32_MAX);
  }

  /** Every `long` and `long long` round-trips through its decimal text. */
  lemma LongRoundTrip(x: int)
    requires INT64_MIN <= x <= INT64_MAX
    ensures LoadLong(DumpInt(x)) == Some(x)
  {
    IntToStringRoundTrip(x, INT64_MIN, INT64_MAX);
  }

  /** Every `unsigned long` and `unsigned long long` round-trips through its decimal text. */
  lemma UnsignedRoundTrip(x: int)
    requires 0 <= x <= UINT64_MAX
    ensures LoadUnsigned(DumpInt(x)) == Some(x)
  {
    IntToStringRoundTrip(x, -UINT64_MAX, UINT64_MAX);
    SmallMod(x, UINT64_MODULUS);
  }

  /**
   * A negated magnitude m that fits loads as 2^64 - m (and "-0" as 0): "-1"
   * loads as the largest unsigned value.
   */
  lemma LoadUnsignedWraps(d: string)
    requires |d| > 0 && AllDigits(d) && DigitsValue(d) <= UINT64_MAX
    ensures LoadUnsigned("-" + d) == Some(if DigitsValue(d) == 0 then 0 else UINT64_MODULUS - DigitsValue(d))
  {
    var m: int := DigitsValue(d);
    var neg := 0 - m;
    var r := LoadUnsigned("-" + d);
    LoadUnsignedNegated(d, neg);
    if m > 0 {
      NegativeMod(neg, UINT64_MODULUS);
      assert r == Some(UINT64_MODULUS - m);
    } else {
      assert neg == 0;
      ZeroMod(neg, UINT64_MODULUS);
    }
  }

  /** Loading a negated magnitude that fits reduces it modulo 2^64. */
  lemma LoadUnsignedNegated(d: string, neg: int)
    requires |d| > 0 && AllDigits(d) && DigitsValue(d) <= UINT64_MAX && neg == 0 - DigitsValue(d)
    ensures LoadUnsigned("-" + d) == Some(neg % UINT64_MODULUS)
  {
    assert -UINT64_MAX <= neg <= UINT64_MAX;
    ParseNegatedDigits(d, -UINT64_MAX, UINT64_MAX);
    assert ParseInteger("-" + d, -UINT64_MAX, UINT64_MAX) == Some(neg);
  }

  lemma SmallMod(v: int, modulus: int)
    requires 0 <= v < modulus
    ensures v % modulus == v
  {
  }

  lemma ZeroMod(v: int, modulus: int)
    requires v == 0 && modulus > 0
    ensures v % modulus == 0
  {
  }

  lemma NegativeMod(v: int, modulus: int)
    requires 0 < -v < modulus
    ensures v % modulus == v + modulus
  {
    assert v == modulus * (-1) + (v + modulus);
  }

  /**
   * A load fails whenever no digit follows the leading white space and the
   * optional sign, where `std::stoi`, `std::stol` and `std::stoul` throw
   * `std::invalid_argument`: the empty string, "x", "-" and " +a" among them.
   */
  lemma LoadNeedsDigits(s: string)
    requires var t := SkipSpace(s);
      LeadingDigits(if |t| > 0 && (t[0] == '-' || t[0] == '+') then t[1..] else t) == 0
    ensures LoadInt(s) == None && LoadLong(s) == None && LoadUnsigned(s) == None
  {
  }
}
