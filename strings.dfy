/** The string helpers of gncli: Python 2's byte-string `lower()`, the safe integer
    parse `sint`, and `str()` of an integer as its partner. */
module Strings {
  import opened Errors
  import opened Digits

  predicate IsUpper(c: char) {
    'A' <= c <= 'Z'
  }

  function LowerChar(c: char): (l: char)
    ensures !IsUpper(l)
    ensures IsUpper(c) ==> l as int == c as int + 32
    ensures !IsUpper(c) ==> l == c
  {
    if IsUpper(c) then (c as int - 'A' as int + 'a' as int) as char else c
  }

  /** `s.lower()` on a Python 2 byte string: ASCII letters are folded, every other
      character is kept. */
  function Lower(s: string): (r: string)
    ensures |r| == |s|
    ensures forall i :: 0 <= i < |s| ==> r[i] == LowerChar(s[i])
  {
    if s == [] then [] else [LowerChar(s[0])] + Lower(s[1..])
  }

  /** Lower-casing twice is lower-casing once. */
  lemma LowerIdempotent(s: string)
    ensures Lower(Lower(s)) == Lower(s)
  {
  }

  /** True when `s` has no ASCII digit at all. */
  predicate NoDigits(s: string) {
    forall i :: 0 <= i < |s| ==> !IsDigit(s[i])
  }

  predicate IsSign(c: char) {
    c == '+' || c == '-'
  }

  /** What `int()` accepts here: an optional sign, then one or more ASCII digits. */
  predicate IsIntLiteral(s: string) {
    if |s| > 0 && IsSign(s[0]) then |s| > 1 && AllDigits(s[1..])
    else |s| > 0 && AllDigits(s)
  }

  /** The digits of a literal, without its sign. */
  function DigitPart(s: string): string {
    if |s| > 0 && IsSign(s[0]) then s[1..] else s
  }

  /** `sint(s)`: `int(s)` for a string of ASCII digits with an optional leading
      sign, and None where `int` raises ValueError. */
  function Sint(s: string): (r: Option<int>)
    ensures r.Some? <==> IsIntLiteral(s)
    ensures r.Some? ==>
      var magnitude: int := DecimalValue(DigitPart(s));
      r.value == if s[0] == '-' then -magnitude else magnitude
    ensures NoDigits(s) ==> r == None
  {
    if |s| > 0 && (s[0] == '+' || s[0] == '-') then
      var body := s[1..];
      if body != [] && AllDigits(body) then
        var v: int := DecimalValue(body);
        Some(if s[0] == '-' then -v else v)
      else None
    else if s != [] && AllDigits(s) then
      Some(DecimalValue(s))
    else None
  }

  /** `str(n)` for a non-negative integer: its digits without leading zeros. */
  function NatToString(n: nat): (s: string)
    ensures |s| > 0 && AllDigits(s) && DecimalValue(s) == n
    ensures s[0] == '0' ==> n == 0
  {
    if n < 10 then [DigitChar(n)]
    else
      var init := NatToString(n / 10);
      var s := init + [DigitChar(n % 10)];
      assert s[..|s| - 1] == init;
      s
  }

  /** `str(n)` for any integer. */
  function IntToString(n: int): (s: string)
    ensures |s| > 0
  {
    if n < 0 then "-" + NatToString(-n) else NatToString(n)
  }

  /** `sint` reads back every integer that `str` writes. */
  lemma SintOfIntToString(n: int)
    ensures Sint(IntToString(n)) == Some(n)
  {
  }

  /** A leading '+' changes nothing, and a leading '-' negates. */
  lemma SintSign(s: string)
    requires |s| > 0 && AllDigits(s)
    ensures Sint("+" + s) == Sint(s)
    ensures Sint("-" + s) == Some(-Sint(s).value)
  {
  }

  /** A digit string that does not start with '0' has a positive value. */
  lemma {:induction false} LeadingDigitPositive(t: string)
    requires |t| > 0 && AllDigits(t) && t[0] != '0'
    ensures DecimalValue(t) >= 1
  {
    if |t| > 1 {
      LeadingDigitPositive(t[..|t| - 1]);
    }
  }

  /** A digit string without a leading zero (or "0" itself) is what `str` writes for its value. */
  lemma {:induction false} NatToStringOfCanonical(t: string)
    requires |t| > 0 && AllDigits(t) && (t[0] != '0' || |t| == 1)
    ensures NatToString(DecimalValue(t)) == t
  {
    var c := t[|t| - 1];
    assert DigitChar(DigitValue(c)) == c;
    if |t| > 1 {
      var init := t[..|t| - 1];
      LeadingDigitPositive(init);
      NatToStringOfCanonical(init);
      var v := DecimalValue(t);
      assert v / 10 == DecimalValue(init) && v % 10 == DigitValue(c);
      assert t == init + [c];
    }
  }

  /** A literal as `str` would write it: no '+', no leading zero, and not "-0". */
  predicate IsCanonicalLiteral(s: string) {
    IsIntLiteral(s) && s[0] != '+' && s != "-0" &&
    var t := DigitPart(s); t[0] != '0' || |t| == 1
  }

  /** `str` writes back every canonical literal that `sint` reads. */
  lemma SintCanonical(s: string)
    requires IsCanonicalLiteral(s)
    ensures Sint(s).Some? && IntToString(Sint(s).value) == s
  {
    var t := DigitPart(s);
    NatToStringOfCanonical(t);
    if s[0] == '-' {
      LeadingDigitPositive(t);
      assert s == "-" + t;
    }
  }
}
