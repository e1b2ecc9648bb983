/**
 * Canonical decimal numerals, as digit sequences: no leading zero except for zero itself. Writing a number and
 * reading it back gives the number, and reading a canonical numeral and writing the value gives the numeral.
 */
module Decimal {

  type Digit = x: int | 0 <= x < 10

  function Digits(n: nat): (d: seq<Digit>) {
    if n < 10 then [n] else Digits(n / 10) + [n % 10]
  }

  function Value(d: seq<Digit>): nat {
    if d == [] then 0 else Value(d[..|d| - 1]) * 10 + d[|d| - 1]
  }

  predicate Canonical(d: seq<Digit>) {
    d != [] && (|d| > 1 ==> d[0] != 0)
  }

  lemma {:induction false} ValueOfDigits(n: nat)
    ensures Canonical(Digits(n)) && Value(Digits(n)) == n
    ensures n > 0 ==> Digits(n)[0] != 0
  {
    if n >= 10 {
      ValueOfDigits(n / 10);
      assert Digits(n)[..|Digits(n)| - 1] == Digits(n / 10);
    }
  }

  lemma {:induction false} ValuePositive(d: seq<Digit>)
    requires d != [] && d[0] != 0
    ensures Value(d) > 0
  {
    if |d| > 1 {
      ValuePositive(d[..|d| - 1]);
    } else {
      assert Value(d[..0]) == 0;
    }
  }

  lemma {:induction false} DigitsOfValue(d: seq<Digit>)
    requires Canonical(d)
    ensures Digits(Value(d)) == d
  {
    var init, last := d[..|d| - 1], d[|d| - 1];
    assert d == init + [last];
    if |d| > 1 {
      ValuePositive(init);
      DigitsOfValue(init);
      assert Value(d) / 10 == Value(init) && Value(d) % 10 == last;
    } else {
      assert init == [];
    }
  }

  function Pow10(k: nat): nat {
    if k == 0 then 1 else 10 * Pow10(k - 1)
  }

  lemma {:induction false} DigitCount(n: nat, k: nat)
    requires k > 0 && n < Pow10(k)
    ensures |Digits(n)| <= k
  {
    if n >= 10 {
      assert k > 1 by { assert k == 1 ==> Pow10(k) == 10; }
      DigitCount(n / 10, k - 1);
    }
  }
}
