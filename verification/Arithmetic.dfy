/** Products, quotients, remainders and powers of two. */
module Arithmetic {

  /** Multiples of the divisor leave the remainder alone. */
  lemma DivMod(x: int, q: int, r: int, m: nat)
    requires m > 0 && x == q * m + r && 0 <= r < m
    ensures x / m == q && x % m == r
  {
    var d := x / m - q;
    assert x == (x / m) * m + x % m;
    assert d * m == r - x % m;
    NoMultiple(d, m);
  }

  lemma NoMultiple(d: int, m: nat)
    requires m > 0 && 0 - m < d * m < m
    ensures d == 0
  {
    if d >= 1 { Scale(1, d, m); }
    if d <= -1 { Scale(d, -1, m); }
  }

  lemma Scale(a: int, b: int, m: nat)
    requires a <= b
    ensures a * m <= b * m
  {}

  lemma Distribute(p: int, a: int, b: int)
    ensures p * a + p * b == p * (a + b)
  {}

  lemma Associate(a: int, b: int, c: int)
    ensures a * (b * c) == (a * b) * c
  {}

  function Pow2(n: nat): (r: nat)
    ensures r > 0
  {
    if n == 0 then 1 else 2 * Pow2(n - 1)
  }

  lemma DivideTwice(x: nat, p: nat)
    requires p > 0
    ensures x / 2 / p == x / (2 * p)
  {
    var q, r := x / (2 * p), x % (2 * p);
    assert x == q * (2 * p) + r;
    DivMod(x, q * p + r / 2, r % 2, 2);
    DivMod(x / 2, q, r / 2, p);
  }

  /** The binary digit of weight 2^i is one. */
  predicate BinaryDigit(v: nat, i: nat) { v / Pow2(i) % 2 == 1 }

  lemma DigitHalf(v: nat, i: nat)
    ensures BinaryDigit(v, i + 1) <==> BinaryDigit(v / 2, i)
  {
    DivideTwice(v, Pow2(i));
  }

  lemma DigitLast(v: nat)
    ensures BinaryDigit(v, 0) <==> v % 2 == 1
  {}
}
