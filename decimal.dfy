/**
 * The decimal rendering of an integer that `std::to_string` produces and that
 * the cache key is built from: an optional minus sign followed by the digits,
 * most significant first, without leading zeros.
 */
module Decimal {

  /** The character of a decimal digit. */
  function DigitChar(d: int): (c: char)
    requires 0 <= d < 10
    ensures '0' <= c <= '9'
    ensures c as int - '0' as int == d
  {
    (48 + d) as char
  }

  /** The digits of a natural number; a single digit exactly for 0..9. */
  function Digits(n: nat): (r: string)
    ensures 1 <= |r|
    ensures |r| == 1 <==> n < 10
    ensures forall i :: 0 <= i < |r| ==> '0' <= r[i] <= '9'
    decreases n
  {
    if n < 10 then [DigitChar(n)] else Digits(n / 10) + [DigitChar(n % 10)]
  }

  /** The text `std::to_string(x)` gives for an integer `x`. */
  function ToDecimal(x: int): (r: string)
    ensures 1 <= |r|
    ensures ',' !in r
    ensures r[0] == '-' <==> x < 0
  {
    var digits := Digits(if x < 0 then -x else x);
    if x < 0 then "-" + digits else digits
  }

  /** Different natural numbers have different digit strings. */
  lemma {:induction false} DigitsInjective(m: nat, n: nat)
    requires Digits(m) == Digits(n)
    ensures m == n
    decreases n
  {
    var dm, dn := Digits(m), Digits(n);
    if 10 <= m && 10 <= n {
      assert Digits(m / 10) == dm[..|dm| - 1];
      assert Digits(n / 10) == dn[..|dn| - 1];
      DigitsInjective(m / 10, n / 10);
      assert DigitChar(m % 10) == dm[|dm| - 1] == dn[|dn| - 1] == DigitChar(n % 10);
    } else {
      assert m < 10 && n < 10;
      assert DigitChar(m) == dm[0] == dn[0] == DigitChar(n);
    }
  }

  /** Different integers have different decimal renderings. */
  lemma DecimalInjective(x: int, y: int)
    requires ToDecimal(x) == ToDecimal(y)
    ensures x == y
  {
    if x < 0 {
      assert Digits(-x) == ToDecimal(x)[1..] == ToDecimal(y)[1..] == Digits(-y);
      DigitsInjective(-x, -y);
    } else {
      DigitsInjective(x, y);
    }
  }
}
