/**
  Fixed-width integer ranges used by the source (u8, u32), and the decimal
  text that Rust's `Display` writes for an integer.
 */
module Numeric {

  /** Rust's `u8`. */
  type u8 = x: int | 0 <= x < 256

  const U32_MAX: nat := 0xFFFF_FFFF

  /** Rust's `u32`. */
  type u32 = x: int | 0 <= x <= U32_MAX

  predicate IsDecimalDigit(c: char) {
    '0' <= c <= '9'
  }

  function DigitChar(d: nat): (c: char)
    requires d < 10
    ensures IsDecimalDigit(c) && c as int - '0' as int == d
  {
    ('0' as int + d) as char
  }

  /** Decimal text of a natural number, most significant digit first, no leading zeros. */
  function NatToString(n: nat): (s: string)
    ensures |s| >= 1
    ensures forall i :: 0 <= i < |s| ==> IsDecimalDigit(s[i])
    ensures |s| > 1 ==> s[0] != '0'
    decreases n
  {
    if n < 10 then [DigitChar(n)] else NatToString(n / 10) + [DigitChar(n % 10)]
  }

  function Abs(n: int): nat {
    if n < 0 then -n else n
  }

  /** The digits of an integer's text, without its sign. */
  function IntDigits(s: string): (ds: string)
    ensures |ds| <= |s|
  {
    if |s| > 0 && s[0] == '-' then s[1..] else s
  }

  /** The value of a string of decimal digits, read left to right. */
  function DecimalValue(s: string): nat
    requires forall i :: 0 <= i < |s| ==> IsDecimalDigit(s[i])
  {
    if s == [] then 0
    else
      var last := s[|s| - 1];
      assert IsDecimalDigit(last);
      DecimalValue(s[..|s| - 1]) * 10 + (last as int - '0' as int)
  }

  /** The decimal text reads back as the number it was written from. */
  lemma {:induction false} DecimalRoundTrip(n: nat)
    ensures DecimalValue(NatToString(n)) == n
    decreases n
  {
    if n >= 10 {
      var s := NatToString(n);
      DecimalRoundTrip(n / 10);
      assert s[..|s| - 1] == NatToString(n / 10);
    }
  }

  /** Different numbers are written differently. */
  lemma NatToStringInjective(m: nat, n: nat)
    requires NatToString(m) == NatToString(n)
    ensures m == n
  {
    DecimalRoundTrip(m);
    DecimalRoundTrip(n);
  }

  /**
    Decimal text of an integer (Rust's `i64` display): a leading `-` exactly
    for negative values, then the digits of the magnitude, no leading zero.
   */
  function IntToString(n: int): (s: string)
    ensures |s| >= 1 && (s[0] == '-' <==> n < 0)
    ensures |IntDigits(s)| >= 1 && forall i :: 0 <= i < |IntDigits(s)| ==> IsDecimalDigit(IntDigits(s)[i])
    ensures |IntDigits(s)| > 1 ==> IntDigits(s)[0] != '0'
    ensures DecimalValue(IntDigits(s)) == Abs(n)
  {
    var s := if n < 0 then "-" + NatToString(-n) else NatToString(n);
    assert IntDigits(s) == NatToString(Abs(n));
    DecimalRoundTrip(Abs(n));
    s
  }

  // ----- division facts for a variable base -----

  lemma DivMod(v: nat, b: nat)
    requires b >= 2
    ensures v == (v / b) * b + v % b && v % b < b
  {
  }

  lemma Distrib(x: int, q: int, b: int)
    ensures (x - q) * b == x * b - q * b
  {
  }

  lemma AtLeastOnce(k: int, b: nat)
    requires k >= 1
    ensures k * b >= b
  {
  }

  /** `x * b + d` divided by `b` is `x`, remainder `d`. */
  lemma DivOfAffine(x: nat, b: nat, d: nat)
    requires b >= 2 && d < b
    ensures (x * b + d) / b == x && (x * b + d) % b == d
  {
    var v := x * b + d;
    var q := v / b;
    DivMod(v, b);
    Distrib(x, q, b);
    Distrib(q, x, b);
    if x > q {
      AtLeastOnce(x - q, b);
    } else if x < q {
      AtLeastOnce(q - x, b);
    }
  }

  lemma DivBound(v: nat, b: nat, p: nat)
    requires b >= 2 && v < b * p
    ensures v / b < p
  {
    DivMod(v, b);
  }

  lemma AffineBound(x: nat, b: nat, d: nat, p: nat)
    requires x < p && d < b
    ensures x * b + d < p * b
  {
    assert x * b <= (p - 1) * b;
  }

  // ----- positional notation -----

  function Pow(b: nat, e: nat): nat
    decreases e
  {
    if e == 0 then 1 else b * Pow(b, e - 1)
  }

  /** The last `n` digits of `v` in base `base`, most significant first. */
  function Digits(v: nat, base: nat, n: nat): (ds: seq<nat>)
    requires base >= 2
    ensures |ds| == n
    ensures forall i :: 0 <= i < n ==> ds[i] < base
    decreases n
  {
    if n == 0 then [] else Digits(v / base, base, n - 1) + [v % base]
  }

  /** The number that digits `ds` stand for, read most significant first. */
  function Value(ds: seq<nat>, base: nat): nat
  {
    if ds == [] then 0 else Value(ds[..|ds| - 1], base) * base + ds[|ds| - 1]
  }

  /** The last `n` digits of a number below `base^n` stand for that number. */
  lemma {:induction false} ValueOfDigits(v: nat, base: nat, n: nat)
    requires base >= 2 && v < Pow(base, n)
    ensures Value(Digits(v, base, n), base) == v
    decreases n
  {
    if n > 0 {
      var ds := Digits(v, base, n);
      assert ds[..n - 1] == Digits(v / base, base, n - 1);
      DivBound(v, base, Pow(base, n - 1));
      ValueOfDigits(v / base, base, n - 1);
      DivMod(v, base);
    }
  }

  /** Writing the value of a digit string with as many digits gives the string back. */
  lemma {:induction false} DigitsOfValue(ds: seq<nat>, base: nat)
    requires base >= 2
    requires forall i :: 0 <= i < |ds| ==> ds[i] < base
    ensures Digits(Value(ds, base), base, |ds|) == ds
    decreases |ds|
  {
    if ds != [] {
      var pre := ds[..|ds| - 1];
      DigitsOfValue(pre, base);
      DivOfAffine(Value(pre, base), base, ds[|ds| - 1]);
      assert ds == pre + [ds[|ds| - 1]];
    }
  }

  /** `n` digits stand for a number below `base^n`. */
  lemma {:induction false} ValueBound(ds: seq<nat>, base: nat)
    requires base >= 2
    requires forall i :: 0 <= i < |ds| ==> ds[i] < base
    ensures Value(ds, base) < Pow(base, |ds|)
    decreases |ds|
  {
    if ds != [] {
      var pre := ds[..|ds| - 1];
      ValueBound(pre, base);
      AffineBound(Value(pre, base), base, ds[|ds| - 1], Pow(base, |pre|));
    }
  }
}
