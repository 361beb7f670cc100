/**
  A primality test in the manner of Proth: a number with a power of the form b^(2^n) congruent to -1
  has only prime factors above 2^(n+1), so it is prime if it is smaller than the square of that.
 */
module Primality {

  import opened Arithmetic
  import opened NumberTheory

  // ----- The least prime factor -----

  lemma DividesThrough(p: int, q: int, d: int)
    requires q > 0 && d > 0 && p % q == 0 && q % d == 0
    ensures p % d == 0
  {
    MultipleTimes(q, p / q, d);
    assert q * (p / q) == p;
  }

  /** The quotient by a divisor is a divisor. */
  lemma OtherFactor(p: int, q: int) returns (e: int)
    requires 1 < q < p && p % q == 0
    ensures p == q * e && 1 < e < p && p % e == 0
  {
    e := p / q;
    assert p == q * e;
    if e <= 0 { TimesMonotone(q, e, 0); }
    if e >= p { TimesMonotone(q, p, e); TimesMonotone(p, 2, q); }
    assert e != 1;
    DivModUnique(p, e, q, 0);
  }

  lemma LeastPrimeFactor(p: int) returns (q: int)
    requires p > 1
    ensures IsPrime(q) && p % q == 0 && (q == p || q * q <= p)
  {
    DivModUnique(p, p, 1, 0);
    q := 2;
    while p % q != 0
      invariant 2 <= q <= p && forall d :: 1 < d < q ==> p % d != 0
      decreases p - q
    {
      q := q + 1;
    }
    forall d | 1 < d < q
      ensures q % d != 0
    {
      if q % d == 0 { DividesThrough(p, q, d); }
    }
    if q < p {
      var e := OtherFactor(p, q);
      TimesMonotone(q, q, e);
    }
  }

  // ----- Powers that are -1 -----

  lemma {:induction false} PowPow(b: int, d: nat, e: nat)
    ensures Pow(Pow(b, d), e) == Pow(b, d * e)
    decreases e
  {
    if e > 0 {
      PowPow(b, d, e - 1);
      assert d * e == d + d * (e - 1);
      PowAdd(b, d, d * (e - 1));
    }
  }

  lemma {:induction false} MinusOneOdd(r: nat)
    requires r % 2 == 1
    ensures Pow(-1, r) == -1
  {
    if r > 1 { MinusOneOdd(r - 2); }
  }

  /** Fermat's little theorem. */
  lemma Fermat(c: int, q: int)
    requires OddPrime(q) && c % q != 0
    ensures Congruent(Pow(c, q - 1), 1, q)
  {
    var h := (q - 1) / 2;
    Euler(c, q);
    PowAdd(c, h, h);
    DivModUnique(1, q, 0, 1);
    DivModUnique(-1, q, -1, q - 1);
    var x := Pow(c, h);
    if NonzeroSquare(c, q) {
      CongruentTimes(x, 1, x, 1, q);
    } else {
      CongruentTimes(x, -1, x, -1, q);
    }
  }

  lemma NotMinusOne(q: int)
    requires q > 2
    ensures !Congruent(1, -1, q) && !Congruent(0, -1, q)
  {
    DivModUnique(1, q, 0, 1);
    DivModUnique(-1, q, -1, q - 1);
    DivModUnique(0, q, 0, 0);
  }

  lemma PowZeroResidue(b: int, e: nat, q: int)
    requires q > 0 && b % q == 0 && e > 0
    ensures Congruent(Pow(b, e), 0, q)
  {
    MultipleTimes(b, Pow(b, e - 1), q);
    DivModUnique(0, q, 0, 0);
  }

  /** With q - 1 == 2^j * r, j <= n and r odd, the r-th power of b^(2^n) is 1 modulo q. */
  lemma OddPower(b: int, n: nat, j: nat, r: nat, q: int)
    requires OddPrime(q) && j <= n && q - 1 == Pow2(j) * r && b % q != 0
    ensures Congruent(Pow(Pow(b, Pow2(n)), r), 1, q)
  {
    PowPow(b, Pow2(n), r);
    Fermat(b, q);
    PowCongruent(Pow(b, q - 1), 1, Pow2(n - j), q);
    PowOne(Pow2(n - j));
    PowPow(b, q - 1, Pow2(n - j));
    Exponents(n, j, r);
  }

  /** So b^(2^n) is not -1 then. */
  lemma OddPartNotMinusOne(b: int, n: nat, j: nat, r: nat, q: int)
    requires OddPrime(q) && j <= n && q - 1 == Pow2(j) * r && r % 2 == 1
    ensures !Congruent(Pow(b, Pow2(n)), -1, q)
  {
    NotMinusOne(q);
    if b % q == 0 {
      PowZeroResidue(b, Pow2(n), q);
    } else {
      OddPower(b, n, j, r, q);
      MinusOneOdd(r);
      if Congruent(Pow(b, Pow2(n)), -1, q) { PowCongruent(Pow(b, Pow2(n)), -1, r, q); }
    }
  }

  lemma Exponents(n: nat, j: nat, r: nat)
    requires j <= n
    ensures Pow2(n) * r == (Pow2(j) * r) * Pow2(n - j)
  {
    Pow2Add(j, n - j);
    assert Pow2(j) * Pow2(n - j) * r == (Pow2(j) * r) * Pow2(n - j);
  }

  /** So 2^(n+1) divides q - 1. */
  lemma {:induction false} TwoPowerDivides(b: int, n: nat, j: nat, q: int) returns (r: nat)
    requires OddPrime(q) && j <= n + 1 && Congruent(Pow(b, Pow2(n)), -1, q)
    ensures q - 1 == Pow2(j) * r
    decreases j
  {
    if j == 0 {
      r := q - 1;
    } else {
      var s := TwoPowerDivides(b, n, j - 1, q);
      if s % 2 == 1 { OddPartNotMinusOne(b, n, j - 1, s, q); }
      r := s / 2;
      assert Pow2(j - 1) * (2 * r) == 2 * Pow2(j - 1) * r;
    }
  }

  lemma CongruentFactor(x: int, y: int, p: int, q: int)
    requires p > 0 && q > 0 && p % q == 0 && Congruent(x, y, p)
    ensures Congruent(x, y, q)
  {
    CongruentIffMultiple(x, y, p);
    DividesThrough(x - y, p, q);
    CongruentIffMultiple(x, y, q);
  }

  lemma LargeFactor(q: int, m: int, r: int)
    requires q > 2 && m > 0 && q - 1 == m * r
    ensures q > m
  {
    if r <= 0 { TimesMonotone(m, r, 0); } else { TimesMonotone(m, 1, r); }
  }

  lemma FactorSquare(b: int, n: nat, q: int)
    requires OddPrime(q) && Congruent(Pow(b, Pow2(n)), -1, q)
    ensures q * q > Pow2(n + 1) * Pow2(n + 1)
  {
    var r := TwoPowerDivides(b, n, n + 1, q);
    LargeFactor(q, Pow2(n + 1), r);
    LargerSquare(Pow2(n + 1), q);
  }

  lemma LargerSquare(m: int, q: int)
    requires 0 < m < q
    ensures q * q > m * m
  {
    TimesMonotone(m, m, q);
    assert q * q == m * q + (q - m) * q;
    TimesMonotone(q, 1, q - m);
  }

  lemma OddFactor(p: int, q: int)
    requires q > 0 && p % q == 0 && p % 2 == 1
    ensures q % 2 == 1
  {
    if q % 2 == 0 { DividesThrough(p, q, 2); }
  }

  lemma PrimeByPower(b: int, n: nat, p: int)
    requires p > 2 && p % 2 == 1 && Congruent(Pow(b, Pow2(n)), -1, p)
    requires p < Pow2(n + 1) * Pow2(n + 1)
    ensures IsPrime(p)
  {
    var q := LeastPrimeFactor(p);
    LargeFactors(b, n, p, q, Pow2(n + 1) * Pow2(n + 1));
  }

  lemma LargeFactors(b: int, n: nat, p: int, q: int, bound: int)
    requires p > 2 && p % 2 == 1 && Congruent(Pow(b, Pow2(n)), -1, p)
    requires IsPrime(q) && p % q == 0 && bound == Pow2(n + 1) * Pow2(n + 1)
    ensures q * q > bound
  {
    OddFactor(p, q);
    CongruentFactor(Pow(b, Pow2(n)), -1, p, q);
    FactorSquare(b, n, q);
  }

  // ----- Repeated squaring -----

  /** Each number is the square of the one before, modulo p. */
  ghost predicate Squares(chain: seq<int>, p: int)
    requires p > 0
  {
    forall i :: 0 <= i < |chain| - 1 ==> Square(chain[i], p) == chain[i + 1]
  }

  function Square(c: int, p: int): int
    requires p > 0
  {
    c * c % p
  }

  lemma SquareIs(c: int, q: int, r: int, p: int)
    requires c * c == p * q + r && 0 <= r < p
    ensures Square(c, p) == r
  {
    DivModUnique(c * c, p, q, r);
  }

  lemma {:induction false} ChainPower(chain: seq<int>, n: nat, p: int)
    requires p > 0 && Squares(chain, p) && n < |chain|
    ensures Congruent(Pow(chain[0], Pow2(n)), chain[n], p)
    decreases n
  {
    var b := chain[0];
    if n == 0 {
      assert Pow(b, 1) == b * Pow(b, 0);
    } else {
      var c := chain[n - 1];
      ChainPower(chain, n - 1, p);
      assert Square(c, p) == chain[n - 1 + 1];
      PowAdd(b, Pow2(n - 1), Pow2(n - 1));
      CongruentTimes(Pow(b, Pow2(n - 1)), c, Pow(b, Pow2(n - 1)), c, p);
      CongruentMod(c * c, p);
    }
  }

  lemma MinusOneResidue(p: int)
    requires p > 1
    ensures Congruent(p - 1, -1, p) && (p - 1) % p == p - 1
  {
    DivModUnique(-1, p, -1, p - 1);
    DivModUnique(p - 1, p, 0, p - 1);
  }

  /** The test. */
  lemma PrimeByChain(chain: seq<int>, n: nat, p: int)
    requires p > 2 && p % 2 == 1 && |chain| == n + 1 && Squares(chain, p) && chain[n] == p - 1
    requires p < Pow2(n + 1) * Pow2(n + 1)
    ensures IsPrime(p)
  {
    ChainPower(chain, n, p);
    MinusOneResidue(p);
    PrimeByPower(chain[0], n, p);
  }

  /** The same chain shows that a is not a square, when it ends with the power (p - 1) / 2 of a. */
  lemma NonsquareByChain(a: int, k: nat, chain: seq<int>, n: nat, p: int)
    requires OddPrime(p) && p - 1 == 2 * (k * Pow2(n))
    requires |chain| == n + 1 && Squares(chain, p) && chain[0] == Pow(a, k) && chain[n] == p - 1
    ensures a % p != 0 && !NonzeroSquare(a, p)
  {
    ChainPower(chain, n, p);
    MinusOneResidue(p);
    PowPow(a, k, Pow2(n));
    Euler(a, p);
  }
}
