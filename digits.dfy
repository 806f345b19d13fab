/** Base-ten digits and powers of ten, shared by the integer parser and the
    decimal-to-rational conversion. */
module Digits {

  /** `TEN ** n`, for a non-negative exponent. */
  function Pow10(n: nat): (p: nat)
    ensures p >= 1
  {
    if n == 0 then 1 else 10 * Pow10(n - 1)
  }

  predicate IsDigit(c: char) {
    '0' <= c <= '9'
  }

  predicate AllDigits(s: string) {
    forall i :: 0 <= i < |s| ==> IsDigit(s[i])
  }

  function DigitValue(c: char): (d: nat)
    requires IsDigit(c)
    ensures d < 10
  {
    c as int - '0' as int
  }

  function DigitChar(d: nat): (c: char)
    requires d < 10
    ensures IsDigit(c) && DigitValue(c) == d
  {
    ('0' as int + d) as char
  }

  /** The value of a string of ASCII digits, most significant first; it has fewer
      than |s| digits' worth of magnitude. */
  function DecimalValue(s: string): (v: nat)
    requires AllDigits(s)
    ensures v < Pow10(|s|)
  {
    if s == [] then 0
    else
      var v' := DecimalValue(s[..|s| - 1]);
      assert v' * 10 <= (Pow10(|s| - 1) - 1) * 10;
      v' * 10 + DigitValue(s[|s| - 1])
  }
}
