/**
 Decimal text for chapter numbers: reading one with `int(...)` and writing one
 with an f-string, optionally padded to two digits.
 */
module Decimal {
  import opened Wrappers

  predicate IsDigit(c: char) {
    '0' <= c <= '9'
  }

  predicate AllDigits(s: string) {
    forall i :: 0 <= i < |s| ==> IsDigit(s[i])
  }

  function DigitValue(c: char): (d: nat)
    requires IsDigit(c)
    ensures d < 10
  {
    (c as int) - ('0' as int)
  }

  function DigitChar(d: nat): (c: char)
    requires d < 10
    ensures IsDigit(c) && DigitValue(c) == d
  {
    (('0' as int) + d) as char
  }

  /** The number a run of digits denotes, most significant digit first. */
  function Value(s: string): nat
    requires AllDigits(s)
    decreases |s|
  {
    if |s| == 0 then 0 else 10 * Value(s[..|s| - 1]) + DigitValue(s[|s| - 1])
  }

  /**
   `int(s)`, narrowed to what a chapter id's suffix normally holds: a
   non-empty run of ASCII digits gives its value (leading zeros allowed), and
   anything else is the `ValueError` case.
   */
  function ParseNat(s: string): (r: Option<nat>)
    ensures r.Some? <==> |s| > 0 && AllDigits(s)
  {
    if |s| > 0 && AllDigits(s) then Some(Value(s)) else None
  }

  /** `f"{n}"` for a non-negative `n`: its digits without leading zeros. */
  function ToDecimal(n: nat): (r: string)
    ensures |r| > 0 && AllDigits(r)
    ensures r[0] == '0' <==> n == 0
    ensures |r| >= 2 <==> n >= 10
    decreases n
  {
    if n < 10 then [DigitChar(n)] else ToDecimal(n / 10) + [DigitChar(n % 10)]
  }

  /** Reading back what was written gives the number written. */
  lemma {:induction false} ToDecimalRoundTrip(n: nat)
    ensures ParseNat(ToDecimal(n)) == Some(n)
    decreases n
  {
    var r := ToDecimal(n);
    if n < 10 {
      assert r[..0] == [];
      assert Value(r) == n;
    } else {
      ToDecimalRoundTrip(n / 10);
      assert r[..|r| - 1] == ToDecimal(n / 10);
      assert Value(r) == 10 * (n / 10) + n % 10 == n;
    }
  }

  /** A leading zero does not change the value of a run of digits. */
  lemma {:induction false} ValueLeadingZero(s: string)
    requires AllDigits(s)
    ensures AllDigits("0" + s) && Value("0" + s) == Value(s)
    decreases |s|
  {
    var z := "0" + s;
    if |s| > 0 {
      ValueLeadingZero(s[..|s| - 1]);
      assert z[..|z| - 1] == "0" + s[..|s| - 1];
    }
  }

  /**
   The chapter number as app.py writes it: `'0'` in front when the value is
   below 10, then the value's digits.
   */
  function Pad(n: nat): (r: string)
    ensures AllDigits(r) && |r| >= 2
    ensures r[0] == '0' <==> n < 10
    ensures n < 10 ==> |r| == 2
  {
    (if n < 10 then "0" else "") + ToDecimal(n)
  }

  /** Padding is undone by parsing: the zero in front is ignored. */
  lemma PadRoundTrip(n: nat)
    ensures ParseNat(Pad(n)) == Some(n)
  {
    ToDecimalRoundTrip(n);
    if n < 10 {
      ValueLeadingZero(ToDecimal(n));
      assert Pad(n) == "0" + ToDecimal(n);
    } else {
      assert Pad(n) == ToDecimal(n);
    }
  }

  /** Different numbers are written differently. */
  lemma PadInjective(m: nat, n: nat)
    requires Pad(m) == Pad(n)
    ensures m == n
  {
    PadRoundTrip(m);
    PadRoundTrip(n);
  }
}
