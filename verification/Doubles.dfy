/** IEEE 754 binary64 numbers as bit patterns: what a pattern denotes, and the pattern
    an integer is converted to, rounded to nearest, ties to even. */
module Doubles {
  import opened Values

  function Pow2(k: nat): (p: nat)
    ensures p >= 1
  {
    if k == 0 then 1 else 2 * Pow2(k - 1)
  }

  const TWO_52 := 0x10_0000_0000_0000
  const TWO_53 := 0x20_0000_0000_0000
  const TWO_63 := 0x8000_0000_0000_0000
  const TWO_64 := 0x1_0000_0000_0000_0000

  type Bits = b: nat | b < TWO_64

  /** m * 2^k */
  function Scaled(m: nat, k: int): real {
    if k >= 0 then (m * Pow2(k)) as real else m as real / Pow2(-k) as real
  }

  function Signed(negative: bool, x: real): real {
    if negative then -x else x
  }

  function Denotes(bits: Bits): Num {
    var negative := bits >= TWO_63;
    var exponent := bits % TWO_63 / TWO_52;
    var fraction := bits % TWO_52;
    if exponent == 2047 then (if fraction != 0 then NaN else if negative then NegInf else PosInf)
    else if exponent == 0 then Finite(Signed(negative, Scaled(fraction, -1074)))
    else Finite(Signed(negative, Scaled(TWO_52 + fraction, exponent - 1075)))
  }

  function Pattern(negative: bool, exponent: nat, fraction: nat): Bits
    requires exponent < 2048 && fraction < TWO_52
  {
    (if negative then TWO_63 else 0) + exponent * TWO_52 + fraction
  }

  lemma PatternParts(negative: bool, exponent: nat, fraction: nat)
    requires exponent < 2048 && fraction < TWO_52
    ensures var b := Pattern(negative, exponent, fraction);
      (b >= TWO_63 <==> negative) && b % TWO_63 / TWO_52 == exponent && b % TWO_52 == fraction
  {
    var b := Pattern(negative, exponent, fraction);
    var low := exponent * TWO_52 + fraction;
    assert low < TWO_63;
    assert b % TWO_63 == low;
    assert low / TWO_52 == exponent && low % TWO_52 == fraction;
    assert TWO_63 == 2048 * TWO_52;
  }

  /** The largest k with 2^k <= n. */
  function Log2(n: nat): (k: nat)
    requires n >= 1
    ensures Pow2(k) <= n < 2 * Pow2(k)
  {
    if n == 1 then 0 else Log2(n / 2) + 1
  }

  /** n / 2^shift to the nearest integer, ties to even. */
  function Nearest(n: nat, shift: nat): nat {
    var p := Pow2(shift);
    var q, r := n / p, n % p;
    if 2 * r > p || (2 * r == p && q % 2 == 1) then q + 1 else q
  }

  /** How far the significand of n has to be shifted. */
  function Shift(n: nat): nat
    requires n >= 1
  {
    if Log2(n) > 52 then Log2(n) - 52 else 0
  }

  /** The double nearest to an integer, as an integer. */
  function RoundedNat(n: nat): nat {
    if n == 0 then 0 else Nearest(n, Shift(n)) * Pow2(Shift(n))
  }

  function Rounded(n: int): int {
    var size: int := RoundedNat(if n < 0 then -n else n);
    if n < 0 then -size else size
  }

  /** Biased exponent and fraction of the double nearest to n. */
  function Parts(n: nat): (parts: (nat, nat))
    requires 1 <= n <= TWO_63
    ensures parts.0 < 2047 && parts.1 < TWO_52
  {
    var e := Log2(n);
    Log2Bound(n);
    if e <= 52 then
      SmallFraction(n);
      (e + 1023, n * Pow2(52 - e) - TWO_52)
    else
      NearestRange(n);
      var q := Nearest(n, e - 52);
      if q == TWO_53 then (e + 1024, 0) else (e + 1023, q - TWO_52)
  }

  /** `n as f64` */
  function FromInt(n: int): Bits
    requires -TWO_63 <= n < TWO_63
  {
    if n == 0 then 0
    else
      var parts := Parts(if n < 0 then -n else n);
      Pattern(n < 0, parts.0, parts.1)
  }

  lemma {:induction false} Pow2Sum(a: nat, b: nat)
    ensures Pow2(a + b) == Pow2(a) * Pow2(b)
  {
    if a > 0 { Pow2Sum(a - 1, b); }
  }

  lemma {:induction false} Pow2Grows(a: nat, b: nat)
    requires a < b
    ensures 2 * Pow2(a) <= Pow2(b)
  {
    if a + 1 < b { Pow2Grows(a, b - 1); }
  }

  lemma Pow2At52()
    ensures Pow2(52) == TWO_52 && Pow2(53) == TWO_53 && Pow2(63) == TWO_63
  {
    SmallPowers();
    hide Pow2;
    Pow2Sum(8, 8); Pow2Sum(16, 16); Pow2Sum(32, 16); Pow2Sum(48, 8);
    Pow2Sum(48, 4);
    Pow2Sum(52, 1);
    Pow2Sum(56, 4);
    Pow2Sum(60, 3);
  }

  lemma SmallPowers()
    ensures Pow2(1) == 2 && Pow2(3) == 8 && Pow2(4) == 16 && Pow2(8) == 256
  {
    assert Pow2(2) == 4 && Pow2(6) == 64;
  }

  lemma Log2Bound(n: nat)
    requires 1 <= n <= TWO_63
    ensures Log2(n) <= 63
  {
    Pow2At52();
    if Log2(n) > 63 { Pow2Grows(63, Log2(n)); }
  }

  /** A significand that needs no shift to the right. */
  lemma SmallFraction(n: nat)
    requires n >= 1 && Log2(n) <= 52
    ensures TWO_52 <= n * Pow2(52 - Log2(n)) < TWO_53
  {
    var e := Log2(n);
    hide Pow2;
    Pow2At52();
    Pow2Sum(e, 52 - e);
    ProductRange(n, Pow2(e), Pow2(52 - e), TWO_52);
  }

  lemma ProductRange(n: nat, p: nat, q: nat, m: nat)
    requires p <= n < 2 * p && p * q == m && q >= 1
    ensures m <= n * q < 2 * m
  {
    assert (2 * p) * q == 2 * (p * q);
    MulLess(p, n, q);
    MulLess2(n, 2 * p, q);
  }

  lemma MulLess(a: nat, b: nat, c: nat)
    requires a <= b
    ensures a * c <= b * c
  {}

  lemma MulLess2(a: nat, b: nat, c: nat)
    requires a < b && c >= 1
    ensures a * c < b * c
  {}

  /** A significand shifted to the right stays one, or rounds up to the next power. */
  lemma NearestRange(n: nat)
    requires n >= 1 && Log2(n) > 52
    ensures TWO_52 <= Nearest(n, Log2(n) - 52) <= TWO_53
  {
    var e := Log2(n);
    var p := Pow2(e - 52);
    Pow2At52();
    Pow2Sum(52, e - 52);
    assert Pow2(e) == TWO_52 * p;
    var q := n / p;
    QuotientRange(n, p, TWO_52);
  }

  lemma QuotientRange(n: nat, p: nat, m: nat)
    requires p >= 1 && m * p <= n < 2 * (m * p)
    ensures m <= n / p < 2 * m
  {
    var q := n / p;
    assert n == q * p + n % p;
    assert (q + 1) * p == q * p + p && (2 * m) * p == 2 * (m * p);
    if q < m { MulLess(q + 1, m, p); }
    if q >= 2 * m { MulLess(2 * m, q, p); }
  }

  /** Converting an integer gives the nearest double; its value is `Rounded`. */
  lemma FromIntDenotes(n: int)
    requires -TWO_63 <= n < TWO_63
    ensures Denotes(FromInt(n)) == Finite(Rounded(n) as real)
  {
    if n == 0 {
      ZeroDenotes();
    } else {
      var size := if n < 0 then -n else n;
      var parts := Parts(size);
      PatternParts(n < 0, parts.0, parts.1);
      PartsDenote(size);
    }
  }

  lemma ZeroDenotes()
    ensures Denotes(0) == Finite(0.0)
  {
    hide Pow2;
    assert Scaled(0, -1074) == 0.0;
  }

  lemma PartsDenote(n: nat)
    requires 1 <= n <= TWO_63
    ensures Parts(n).0 > 0
    ensures Scaled(TWO_52 + Parts(n).1, Parts(n).0 - 1075) == RoundedNat(n) as real
  {
    var e := Log2(n);
    if e <= 52 {
      SmallFraction(n);
      var p := Pow2(52 - e);
      assert Nearest(n, 0) == n by { assert Pow2(0) == 1; }
      assert RoundedNat(n) == n by { assert Pow2(0) == 1; }
      QuotientOfProduct(n, p);
    } else {
      NearestRange(n);
      var q := Nearest(n, e - 52);
      if q == TWO_53 {
        assert Pow2(e - 51) == 2 * Pow2(e - 52);
        assert TWO_52 * (2 * Pow2(e - 52)) == (2 * TWO_52) * Pow2(e - 52);
      }
    }
  }

  lemma QuotientOfProduct(n: nat, p: nat)
    requires p >= 1
    ensures (n * p) as real / p as real == n as real
  {
    assert (n * p) as real == n as real * p as real;
  }

  /** Conversion keeps an integer exactly when its significand fits 53 bits. */
  lemma RoundedExactly(n: nat)
    requires n >= 1
    ensures RoundedNat(n) == n <==> n % Pow2(Shift(n)) == 0
    ensures n <= TWO_53 ==> RoundedNat(n) == n
  {
    var p := Pow2(Shift(n));
    var q, r := n / p, n % p;
    assert n == q * p + r;
    assert (q + 1) * p == q * p + p;
    if n <= TWO_53 {
      Pow2At52();
      if Log2(n) > 53 { Pow2Grows(53, Log2(n)); }
      assert Pow2(0) == 1 && Pow2(1) == 2;
      if Log2(n) == 53 { assert n == TWO_53; }
    }
  }

  /** No integer is moved by more than half a unit in the last place. */
  lemma RoundedNearby(n: nat)
    requires n >= 1
    ensures -(Pow2(Shift(n)) as int) <= 2 * (RoundedNat(n) - n) <= Pow2(Shift(n))
  {
    var p := Pow2(Shift(n));
    var q, r := n / p, n % p;
    assert n == q * p + r;
    assert (q + 1) * p == q * p + p;
  }
}
