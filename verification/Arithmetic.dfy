/**
  Quotients, remainders and powers of two.
 */
module Arithmetic {

  lemma DivModUnique(v: int, p: int, q: int, r: int)
    requires v == p * q + r && 0 <= r < p
    ensures v / p == q && v % p == r
  {
    var d := q - v / p;
    assert p * d == v % p - r;
    assert d != 0 ==> p * d >= p || p * d <= -p;
  }

  lemma TimesMonotone(k: int, x: int, y: int)
    requires k >= 0 && x <= y
    ensures k * x <= k * y
  {}

  lemma TimesAssociates(x: int, y: int, z: int)
    ensures x * (y * z) == x * y * z
  {}

  /** The square of a negative modulo p. */
  lemma NegativeSquare(p: int, r: int)
    ensures (p - r) * (p - r) == p * (p - 2 * r) + r * r
  {
    assert (p - r) * (p - r) == p * p - 2 * (p * r) + r * r;
    assert p * (p - 2 * r) == p * p - 2 * (p * r);
  }

  function Pow2(n: nat): (p: nat)
    ensures p > 0
  {
    if n == 0 then 1 else 2 * Pow2(n - 1)
  }

  lemma {:induction false} Pow2Add(a: nat, b: nat)
    ensures Pow2(a + b) == Pow2(a) * Pow2(b)
    decreases a
  {
    if a > 0 {
      Pow2Add(a - 1, b);
      TimesAssociates(2, Pow2(a - 1), Pow2(b));
    }
  }
}
