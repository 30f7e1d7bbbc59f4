/** Python's `str` of an integer, and that it determines the integer. */
module Decimals {

  predicate IsDigit(c: char) { '0' <= c <= '9' }

  function Digits(n: nat): (s: string)
    ensures s != [] && forall c :: c in s ==> IsDigit(c)
  {
    (if n < 10 then [] else Digits(n / 10)) + [('0' as int + n % 10) as char]
  }

  function Decimal(n: int): (s: string)
    ensures s != [] && forall c :: c in s ==> c == '-' || IsDigit(c)
  {
    if n < 0 then "-" + Digits(-n) else Digits(n)
  }

  lemma {:induction false} DigitsInjective(m: nat, n: nat)
    requires Digits(m) == Digits(n)
    ensures m == n
  {
    var s, t := Digits(m), Digits(n);
    assert s[|s| - 1] == t[|t| - 1];
    assert m % 10 == n % 10;
    assert |s| == 1 <==> m < 10;
    assert |t| == 1 <==> n < 10;
    if m >= 10 {
      assert Digits(m / 10) == s[..|s| - 1] == t[..|t| - 1] == Digits(n / 10);
      DigitsInjective(m / 10, n / 10);
    }
  }

  lemma DecimalInjective(m: int, n: int)
    requires Decimal(m) == Decimal(n)
    ensures m == n
  {
    var s, t := Decimal(m), Decimal(n);
    assert m >= 0 ==> s[0] in Digits(m) && s[0] != '-';
    assert n >= 0 ==> t[0] in Digits(n) && t[0] != '-';
    if m < 0 {
      assert s[1..] == Digits(-m) && t[1..] == Digits(-n);
      DigitsInjective(-m, -n);
    } else {
      DigitsInjective(m, n);
    }
  }
}
