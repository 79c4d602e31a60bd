/**
  Decimal text of integers: what `format!("{}", n)` writes for an `i64` or a
  `usize`, and what `str::parse::<i64>()` / `str::parse::<usize>()` accept.
*/
module Numeric {
  import opened Bytes

  const I64_MIN: int := -0x8000_0000_0000_0000
  const I64_MAX: int := 0x7FFF_FFFF_FFFF_FFFF
  const USIZE_MAX: int := 0xFFFF_FFFF_FFFF_FFFF

  const PLUS: byte := 43
  const MINUS: byte := 45
  const ZERO: byte := 48

  predicate IsI64(n: int) {
    I64_MIN <= n <= I64_MAX
  }

  predicate IsDigit(b: byte) {
    48 <= b <= 57
  }

  predicate AllDigits(s: Bytes) {
    forall i :: 0 <= i < |s| ==> IsDigit(s[i])
  }

  /** Decimal digits carry no line break, so they never contain a CRLF. */
  lemma DigitsHaveNoLineBreak(s: Bytes)
    requires AllDigits(s)
    ensures NoLineBreak(s) && NoCrlf(s)
  {
    NoLineBreakNoCrlf(s);
  }

  /** Canonical decimal text of a natural number: digits only, no leading zero. */
  function Decimal(n: nat): (r: Bytes)
    ensures 1 <= |r| && AllDigits(r)
    ensures |r| > 1 ==> r[0] != ZERO
    decreases n
  {
    if n < 10 then [(48 + n) as byte] else Decimal(n / 10) + [(48 + n % 10) as byte]
  }

  /** The number a non-empty run of decimal digits denotes, most significant first. */
  function DigitsValue(s: Bytes): nat
    requires AllDigits(s)
    decreases |s|
  {
    if |s| == 0 then 0 else DigitsValue(s[..|s| - 1]) * 10 + (s[|s| - 1] as int - 48)
  }

  /** Reading back the canonical text of `n` gives `n`. */
  lemma {:induction false} DecimalRoundTrip(n: nat)
    ensures DigitsValue(Decimal(n)) == n
    decreases n
  {
    if n >= 10 {
      var s := Decimal(n);
      assert s[..|s| - 1] == Decimal(n / 10);
      DecimalRoundTrip(n / 10);
    }
  }

  /** `format!("{}", n)`: a leading '-' for negative numbers, then the digits of |n|. */
  function FormatInt(n: int): (r: Bytes)
    ensures 1 <= |r|
    ensures NoLineBreak(r)
    ensures n < 0 <==> r[0] == MINUS
    ensures forall i :: 1 <= i < |r| ==> IsDigit(r[i])
  {
    var r := if n < 0 then [MINUS] + Decimal(-n) else Decimal(n);
    assert forall i :: 0 <= i < |r| ==> r[i] == MINUS || IsDigit(r[i]);
    r
  }

  /**
    `str::parse` for a Rust integer type whose range is `lo..=hi`. An optional
    '+' (and, for signed types, '-') is followed by at least one digit and
    nothing else; values outside the range are overflow errors.
  */
  function ParseInt(s: Bytes, signed: bool, lo: int, hi: int): (r: Option<int>)
    ensures r.Some? ==> lo <= r.value <= hi
    ensures r.Some? ==> 1 <= |s| && (IsDigit(s[0]) || s[0] == PLUS || (signed && s[0] == MINUS))
    ensures r.Some? && 2 <= |s| ==> IsDigit(s[1])
  {
    if |s| == 0 then None
    else if (s[0] == PLUS || s[0] == MINUS) && |s| == 1 then None
    else
      var negative := signed && s[0] == MINUS;
      var digits := if s[0] == PLUS || negative then s[1..] else s;
      if !AllDigits(digits) then None
      else
        var v := if negative then -(DigitsValue(digits) as int) else DigitsValue(digits) as int;
        if lo <= v <= hi then Some(v) else None
  }

  /** `k` zero digits. */
  function Zeros(k: nat): (r: Bytes)
    ensures |r| == k && AllDigits(r)
  {
    seq(k, _ => ZERO)
  }

  function Abs(n: int): nat {
    if n < 0 then -n else n
  }

  /** The sign byte a parsed text starts with, if any. */
  function SignOf(s: Bytes): Bytes {
    if |s| > 0 && (s[0] == PLUS || s[0] == MINUS) then s[..1] else []
  }

  /** A leading zero digit adds nothing to the value. */
  lemma {:induction false} LeadingZeroValue(d: Bytes)
    requires AllDigits(d) && |d| >= 1 && d[0] == ZERO
    ensures DigitsValue(d) == DigitsValue(d[1..])
    decreases |d|
  {
    if |d| > 1 {
      var p := d[..|d| - 1];
      LeadingZeroValue(p);
      assert p[1..] == d[1..][..|d[1..]| - 1];
    }
  }

  /** Digits that start with a non-zero digit denote at least 1. */
  lemma {:induction false} NonZeroLeadValue(d: Bytes)
    requires AllDigits(d) && |d| >= 1 && d[0] != ZERO
    ensures DigitsValue(d) >= 1
    decreases |d|
  {
    if |d| > 1 {
      NonZeroLeadValue(d[..|d| - 1]);
    }
  }

  /** Digits without a leading zero are the canonical text of their value. */
  lemma {:induction false} CanonicalDigits(d: Bytes)
    requires AllDigits(d) && |d| >= 1 && (|d| == 1 || d[0] != ZERO)
    ensures Decimal(DigitsValue(d)) == d
    decreases |d|
  {
    if |d| > 1 {
      var p := d[..|d| - 1];
      NonZeroLeadValue(p);
      CanonicalDigits(p);
      assert d == p + [d[|d| - 1]];
    }
  }

  /** Any run of digits is the canonical text of its value after some zeros. */
  lemma {:induction false} PaddedDigits(d: Bytes)
    requires AllDigits(d) && |d| >= 1
    ensures |Decimal(DigitsValue(d))| <= |d|
    ensures d == Zeros(|d| - |Decimal(DigitsValue(d))|) + Decimal(DigitsValue(d))
    decreases |d|
  {
    if |d| == 1 || d[0] != ZERO {
      CanonicalDigits(d);
      assert Zeros(0) == [];
    } else {
      LeadingZeroValue(d);
      PaddedDigits(d[1..]);
      var k := |d[1..]| - |Decimal(DigitsValue(d))|;
      assert Zeros(k + 1) == [ZERO] + Zeros(k);
      assert d == [ZERO] + d[1..];
    }
  }

  /**
    What `str::parse` accepts: an optional sign, then some zeros, then the
    canonical text of the value's magnitude. A '-' is read only by a signed
    type and gives a value at most zero, and every negative value carries it.
    With no '+' and no padding, the text is exactly `FormatInt` of the value.
  */
  lemma ParsedText(s: Bytes, signed: bool, lo: int, hi: int)
    requires ParseInt(s, signed, lo, hi).Some?
    ensures var v := ParseInt(s, signed, lo, hi).value;
      var d := Decimal(Abs(v));
      |SignOf(s)| + |d| <= |s| &&
      s == SignOf(s) + Zeros(|s| - |SignOf(s)| - |d|) + d
    ensures SignOf(s) == [MINUS] ==> signed && ParseInt(s, signed, lo, hi).value <= 0
    ensures ParseInt(s, signed, lo, hi).value < 0 ==> SignOf(s) == [MINUS]
    ensures var v := ParseInt(s, signed, lo, hi).value;
      SignOf(s) != [PLUS] && |s| == |SignOf(s)| + |Decimal(Abs(v))| && (v == 0 ==> SignOf(s) == []) ==>
      s == FormatInt(v)
  {
    var v := ParseInt(s, signed, lo, hi).value;
    var sign := SignOf(s);
    var digits := s[|sign|..];
    SignedDigits(s, signed, lo, hi);
    PaddedDigits(digits);
    SplitSign(s, sign, digits, Zeros(|digits| - |Decimal(Abs(v))|), Decimal(Abs(v)));
  }

  /** The magnitude of a parsed value is the value of the digits after the sign. */
  lemma SignedDigits(s: Bytes, signed: bool, lo: int, hi: int)
    requires ParseInt(s, signed, lo, hi).Some?
    ensures |SignOf(s)| < |s| && AllDigits(s[|SignOf(s)|..])
    ensures Abs(ParseInt(s, signed, lo, hi).value) == DigitsValue(s[|SignOf(s)|..])
    ensures SignOf(s) == [MINUS] ==> signed && ParseInt(s, signed, lo, hi).value <= 0
    ensures ParseInt(s, signed, lo, hi).value < 0 ==> SignOf(s) == [MINUS]
  {
  }

  lemma SplitSign(s: Bytes, sign: Bytes, digits: Bytes, zeros: Bytes, d: Bytes)
    requires |sign| <= |s| && digits == s[|sign|..] && s[..|sign|] == sign && digits == zeros + d
    ensures s == sign + zeros + d
  {
    assert s == s[..|sign|] + s[|sign|..];
  }

  /** Every `i64` survives formatting and re-parsing, negatives included. */
  lemma FormatParseI64(n: int)
    requires IsI64(n)
    ensures ParseInt(FormatInt(n), true, I64_MIN, I64_MAX) == Some(n)
  {
    if n < 0 {
      DecimalRoundTrip(-n);
      assert FormatInt(n)[1..] == Decimal(-n);
    } else {
      DecimalRoundTrip(n);
    }
  }

  /** Every `usize` survives formatting and re-parsing. */
  lemma FormatParseUsize(n: nat)
    requires n <= USIZE_MAX
    ensures ParseInt(Decimal(n), false, 0, USIZE_MAX) == Some(n)
  {
    DecimalRoundTrip(n);
  }
}
