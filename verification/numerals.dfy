/**
 * Digits and positional numerals, shared by the `parseInt` model of the
 * quantity field and by the comparison of `yyyy-mm-dd` dates.
 */
module Numerals {

  predicate IsDecimalDigit(c: char) { '0' <= c <= '9' }

  predicate IsHexDigit(c: char) {
    IsDecimalDigit(c) || 'a' <= c <= 'f' || 'A' <= c <= 'F'
  }

  /** A digit of the radix; only radix 10 and radix 16 occur. */
  predicate IsDigitIn(c: char, radix: nat) {
    if radix == 16 then IsHexDigit(c) else IsDecimalDigit(c)
  }

  predicate AllDigitsIn(s: string, radix: nat) {
    forall i :: 0 <= i < |s| ==> IsDigitIn(s[i], radix)
  }

  function DigitValue(c: char): (d: nat)
    requires IsHexDigit(c)
    ensures d < 16
    ensures IsDecimalDigit(c) <==> d < 10
  {
    if IsDecimalDigit(c) then c as int - '0' as int
    else if 'a' <= c <= 'f' then c as int - 'a' as int + 10
    else c as int - 'A' as int + 10
  }

  function Pow(base: nat, e: nat): (p: nat)
    ensures base >= 1 ==> p >= 1
  {
    if e == 0 then 1 else base * Pow(base, e - 1)
  }

  /** The number a string of digits denotes in the given radix (most significant digit first). */
  function Value(s: string, radix: nat): nat
    requires radix == 10 || radix == 16
    requires AllDigitsIn(s, radix)
  {
    if s == [] then 0
    else Value(s[..|s| - 1], radix) * radix + DigitValue(s[|s| - 1])
  }

  /** Appending a digit to a numeral with leading digit `d0` multiplies the leading digit's weight by ten. */
  lemma ShiftDigit(d0: int, p: int, v: int, dl: int)
    ensures (d0 * p + v) * 10 + dl == d0 * (10 * p) + (v * 10 + dl)
  {
  }

  /**
   * Reading a decimal numeral from its first digit: the leading digit weighs
   * 10^(k-1) in a numeral of k digits.
   */
  lemma {:induction false} ValueFront(s: string)
    requires |s| >= 1 && AllDigitsIn(s, 10)
    ensures Value(s, 10) == DigitValue(s[0]) * Pow(10, |s| - 1) + Value(s[1..], 10)
  {
    if |s| == 1 {
      assert s[..0] == [] && s[1..] == [];
    } else {
      var init := s[..|s| - 1];
      var tail := s[1..];
      ValueFront(init);
      assert init[0] == s[0];
      assert init[1..] == tail[..|tail| - 1];
      assert tail[|tail| - 1] == s[|s| - 1];
      assert Value(tail, 10) == Value(init[1..], 10) * 10 + DigitValue(s[|s| - 1]);
      assert Pow(10, |s| - 1) == 10 * Pow(10, |s| - 2);
      ShiftDigit(DigitValue(s[0]), Pow(10, |s| - 2), Value(init[1..], 10), DigitValue(s[|s| - 1]));
    }
  }

  function DigitChar(d: nat): (c: char)
    requires d < 10
    ensures IsDecimalDigit(c) && DigitValue(c) == d
  {
    ('0' as int + d) as char
  }

  /** The decimal numeral of a natural number, without leading zeros. */
  function Numeral(n: nat): (s: string)
    ensures |s| >= 1 && AllDigitsIn(s, 10)
    ensures s[0] == '0' ==> n == 0 && s == "0"
  {
    if n < 10 then [DigitChar(n)] else Numeral(n / 10) + [DigitChar(n % 10)]
  }

  /** Writing a number as a numeral and reading it back gives the number. */
  lemma {:induction false} NumeralValue(n: nat)
    ensures Value(Numeral(n), 10) == n
  {
    var s := Numeral(n);
    if n < 10 {
      assert s[..0] == [];
    } else {
      NumeralValue(n / 10);
      assert s[..|s| - 1] == Numeral(n / 10);
    }
  }
}
