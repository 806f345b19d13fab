/** `gnc_numeric_from_decimal`: a Python Decimal, given by its `as_tuple()`, becomes
    a GnuCash rational number whose denominator is a power of ten. */
module Numeric {
  import opened Errors
  import opened Digits
  import Strings

  /** `Decimal.as_tuple()` of a finite decimal: the sign (true when negative), the
      digits, most significant first, and the base-ten exponent. */
  datatype DecimalTuple = DecimalTuple(sign: bool, digits: seq<int>, exponent: int)

  /** A GnuCash rational number `num / den`. */
  datatype GncNumeric = GncNumeric(num: int, den: int)

  /** `Decimal(0).radix()`. */
  const Ten := 10

  /** Every entry of a Decimal digit tuple is one of 0..9. */
  predicate IsDigitSeq(ds: seq<int>) {
    forall i :: 0 <= i < |ds| ==> 0 <= ds[i] <= 9
  }

  /** The integer whose base-ten digits are `ds`, most significant first. */
  function DigitsValue(ds: seq<int>): (v: int)
    ensures IsDigitSeq(ds) ==> 0 <= v < Pow10(|ds|)
  {
    if ds == [] then 0
    else
      var v' := DigitsValue(ds[..|ds| - 1]);
      assert IsDigitSeq(ds) ==> IsDigitSeq(ds[..|ds| - 1]) && v' * 10 <= (Pow10(|ds| - 1) - 1) * 10;
      v' * 10 + ds[|ds| - 1]
  }

  /** The exponent's positive and negative parts: 10^e == 10^PosPart(e) / 10^NegPart(e). */
  function PosPart(e: int): nat { if e >= 0 then e else 0 }
  function NegPart(e: int): nat { if e < 0 then -e else 0 }

  /** The signed integer the digit tuple stands for, before the exponent is applied. */
  function SignedCoefficient(d: DecimalTuple): int {
    if d.sign then -DigitsValue(d.digits) else DigitsValue(d.digits)
  }

  /** `n` is a rational with positive denominator equal to the decimal's value,
      (-1)^sign * digits * 10^exponent, stated by cross-multiplication. */
  predicate Denotes(n: GncNumeric, d: DecimalTuple) {
    n.den > 0 &&
    n.num * Pow10(NegPart(d.exponent)) == SignedCoefficient(d) * Pow10(PosPart(d.exponent)) * n.den
  }

  /** A digit placed in front of `ds` adds its value times the place value of |ds| digits:
      the step of the least-significant-first accumulation. */
  lemma {:induction false} DigitsValuePrepend(d: int, ds: seq<int>)
    ensures DigitsValue([d] + ds) == d * Pow10(|ds|) + DigitsValue(ds)
  {
    if ds == [] {
      assert [d] + ds == [d];
      assert [d][..0] == [];
    } else {
      var init, last := ds[..|ds| - 1], ds[|ds| - 1];
      var whole := [d] + ds;
      assert whole[..|whole| - 1] == [d] + init && whole[|whole| - 1] == last;
      DigitsValuePrepend(d, init);
      var place, rest := Pow10(|init|), DigitsValue(init);
      calc {
        DigitsValue(whole);
        DigitsValue([d] + init) * 10 + last;
        (d * place + rest) * 10 + last;
        { ShiftPlace(d, place, rest, last); }
        d * (place * 10) + (rest * 10 + last);
      }
    }
  }

  /** Appending a digit multiplies the earlier place values by ten. */
  lemma ShiftPlace(d: int, place: int, rest: int, last: int)
    ensures (d * place + rest) * 10 + last == d * (place * 10) + (rest * 10 + last)
  {
  }

  /** `gnc_numeric_from_decimal`: the numerator is accumulated from the least significant
      digit with a running place value, the sign is put on the numerator, and a negative
      exponent becomes the denominator while a non-negative one scales the numerator.
      Nothing is reduced, so the denominator is fixed by the exponent alone. */
  method GncNumericFromDecimal(d: DecimalTuple) returns (r: GncNumeric)
    ensures r.den == Pow10(NegPart(d.exponent))
    ensures Denotes(r, d)
    ensures IsDigitSeq(d.digits) ==> (r.num < 0 <==> d.sign && DigitsValue(d.digits) != 0)
    ensures r.num == 0 <==> DigitsValue(d.digits) == 0
  {
    var numerator := 0;
    var placeValue := 1;
    for i := |d.digits| downto 0
      invariant numerator == DigitsValue(d.digits[i..])
      invariant placeValue == Pow10(|d.digits| - i)
    {
      assert d.digits[i..] == [d.digits[i]] + d.digits[i + 1..];
      DigitsValuePrepend(d.digits[i], d.digits[i + 1..]);
      numerator := numerator + d.digits[i] * placeValue;
      placeValue := placeValue * Ten;
    }
    assert d.digits[0..] == d.digits;

    if d.sign {
      numerator := -numerator;
    }

    if d.exponent < 0 {
      r := GncNumeric(numerator, Pow10(-d.exponent));
    } else {
      var scale := Pow10(d.exponent);
      r := GncNumeric(numerator * scale, 1);
      assert numerator < 0 ==> r.num < 0;
      assert numerator > 0 ==> r.num > 0;
    }
  }

  /** The characters of a digit tuple: what `''.join(digits)` stands for. */
  function DigitString(ds: seq<int>): (s: string)
    requires IsDigitSeq(ds)
    ensures |s| == |ds| && Digits.AllDigits(s)
    ensures forall i :: 0 <= i < |ds| ==> Digits.DigitValue(s[i]) == ds[i]
  {
    seq(|ds|, i requires 0 <= i < |ds| => DigitChar(ds[i]))
  }

  /** The digit string is read by the same place values as the digits themselves. */
  lemma {:induction false} DecimalValueOfDigitString(ds: seq<int>)
    requires IsDigitSeq(ds)
    ensures DecimalValue(DigitString(ds)) == DigitsValue(ds)
  {
    if ds != [] {
      var init := ds[..|ds| - 1];
      assert DigitString(ds)[..|ds| - 1] == DigitString(init);
      DecimalValueOfDigitString(init);
    }
  }

  /** The numerator's magnitude is `int(''.join(digits))`, as the source's comment says. */
  lemma NumeratorIsIntOfDigitString(ds: seq<int>)
    requires IsDigitSeq(ds) && |ds| > 0
    ensures Strings.Sint(DigitString(ds)) == Some(DigitsValue(ds))
  {
    DecimalValueOfDigitString(ds);
    assert Digits.IsDigit(DigitString(ds)[0]);
  }

  /** Trailing zeros are kept and the sign of a zero is dropped:
      Decimal('1.50') becomes 150/100 and Decimal('-0.00') becomes 0/100. */
  method NoReductionExamples() returns (oneFifty: GncNumeric, negativeZero: GncNumeric)
    ensures oneFifty == GncNumeric(150, 100)
    ensures negativeZero == GncNumeric(0, 100)
  {
    assert DigitsValue([1, 5, 0]) == 150 by {
      assert [1, 5, 0][..2] == [1, 5];
      assert [1, 5][..1] == [1];
      assert [1][..0] == [];
    }
    assert DigitsValue([0]) == 0 by {
      assert [0][..0] == [];
    }
    assert Pow10(2) == 100;
    oneFifty := GncNumericFromDecimal(DecimalTuple(false, [1, 5, 0], -2));
    negativeZero := GncNumericFromDecimal(DecimalTuple(true, [0], -2));
  }
}
