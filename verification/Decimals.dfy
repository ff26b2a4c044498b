/** Decimal spelling of numbers, as names are numbered with. */
module Decimals {
  function Digit(d: nat): char
    requires d < 10
  {
    "0123456789"[d]
  }

  function Decimal(n: nat): string {
    if n < 10 then [Digit(n)] else Decimal(n / 10) + [Digit(n % 10)]
  }

  lemma {:induction false} DecimalInjective(a: nat, b: nat)
    requires Decimal(a) == Decimal(b)
    ensures a == b
    decreases a
  {
    var x, y := Decimal(a), Decimal(b);
    if a >= 10 { assert x[|x| - 1] == Digit(a % 10); DecimalNotEmpty(a / 10); }
    if b >= 10 { assert y[|y| - 1] == Digit(b % 10); DecimalNotEmpty(b / 10); }
    if a >= 10 && b >= 10 {
      assert x[..|x| - 1] == Decimal(a / 10);
      assert y[..|y| - 1] == Decimal(b / 10);
      DecimalInjective(a / 10, b / 10);
      assert Digit(a % 10) == Digit(b % 10);
    }
  }

  lemma {:induction false} DecimalNotEmpty(n: nat)
    ensures |Decimal(n)| > 0
    decreases n
  {
    if n >= 10 { DecimalNotEmpty(n / 10); }
  }
}
