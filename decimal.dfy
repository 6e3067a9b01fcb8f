/**
 * ASCII decimal digit strings: reading them as numbers (Python's `int` on a
 * digit string) and writing numbers as them (Python's `str` on an `int`).
 */
module Decimal {

  predicate IsAsciiDigit(c: char) {
    '0' <= c <= '9'
  }

  predicate AllDigits(s: string) {
    forall i :: 0 <= i < |s| ==> IsAsciiDigit(s[i])
  }

  /** The value of one digit; a non-digit reads as 0 so that the function is total. */
  function DigitValue(c: char): (d: nat)
    ensures d <= 9
    ensures IsAsciiDigit(c) ==> d == c as int - '0' as int
  {
    if IsAsciiDigit(c) then c as int - '0' as int else 0
  }

  /** The digit character for 0 <= d <= 9. */
  function DigitChar(d: nat): (c: char)
    requires d <= 9
    ensures IsAsciiDigit(c) && DigitValue(c) == d
  {
    (d + '0' as int) as char
  }

  /** 10 to the power e. */
  function Pow10(e: nat): (p: nat)
    ensures p >= 1
  {
    if e == 0 then 1 else 10 * Pow10(e - 1)
  }

  /** The number a digit string denotes, most significant digit first; n digits stay below 10^n. */
  function DecimalValue(ds: string): (v: nat)
    ensures v < Pow10(|ds|)
  {
    if ds == [] then 0 else DecimalValue(ds[..|ds| - 1]) * 10 + DigitValue(ds[|ds| - 1])
  }

  /** The shortest decimal spelling of n, as Python's `str(n)` gives it: digits only, no leading zero. */
  function DecimalString(n: nat): (s: string)
    ensures |s| > 0 && AllDigits(s)
    ensures n > 0 ==> s[0] != '0'
    ensures |s| == 1 <==> n < 10
  {
    if n < 10 then [DigitChar(n)] else DecimalString(n / 10) + [DigitChar(n % 10)]
  }

  /** Three digits read as a number: hundreds, tens, units. */
  lemma ThreeDigitValue(ds: string)
    requires |ds| == 3
    ensures DecimalValue(ds) == 100 * DigitValue(ds[0]) + 10 * DigitValue(ds[1]) + DigitValue(ds[2])
    ensures DecimalValue(ds) < 1000
  {
    assert ds[..2][..1] == ds[..1];
    assert ds[..1][..0] == [];
    assert DecimalValue(ds[..1]) == DigitValue(ds[0]);
    assert DecimalValue(ds[..2]) == 10 * DigitValue(ds[0]) + DigitValue(ds[1]);
  }

  /** Writing a number in decimal and reading it back gives the number. */
  lemma {:induction false} DecimalRoundTrip(n: nat)
    ensures |DecimalString(n)| > 0 && AllDigits(DecimalString(n))
    ensures DecimalValue(DecimalString(n)) == n
  {
    if n >= 10 {
      DecimalRoundTrip(n / 10);
      var p := DecimalString(n / 10);
      assert (p + [DigitChar(n % 10)])[..|p|] == p;
    }
  }
}
