/**
  Arithmetic modulo a prime: inverses, Wilson's theorem and Euler's criterion.

  Everything is proved from the definition of a prime.  The one idea is that the residues
  1, ..., p - 1 fall into pairs x, y with x * y congruent to a given number, so that their
  product is a power of it (Pairing).
 */
module NumberTheory {

  import opened Arithmetic

  ghost predicate IsPrime(p: int) {
    p >= 2 && forall d :: 1 < d < p ==> p % d != 0
  }

  ghost predicate OddPrime(p: int) {
    IsPrime(p) && p % 2 == 1
  }

  ghost predicate Congruent(a: int, b: int, p: int)
    requires p > 0
  {
    a % p == b % p
  }

  // ----- Congruences -----

  /** Multiples of p do not matter. */
  lemma ModShift(k: int, x: int, p: int)
    requires p > 0
    ensures (p * k + x) % p == x % p
  {
    assert p * k + x == p * (k + x / p) + x % p;
    DivModUnique(p * k + x, p, k + x / p, x % p);
  }

  lemma CongruentMod(a: int, p: int)
    requires p > 0
    ensures Congruent(a % p, a, p)
  {
    ModShift(-(a / p), a, p);
    assert p * -(a / p) + a == a % p;
  }

  /** Congruent numbers differ by a multiple of p. */
  lemma CongruentIffMultiple(a: int, b: int, p: int)
    requires p > 0
    ensures Congruent(a, b, p) <==> (a - b) % p == 0
  {
    var k := a / p - b / p;
    assert a - b == p * k + (a % p - b % p);
    ModShift(k, a % p - b % p, p);
    if (a - b) % p == 0 {
      SmallMultiple(a % p - b % p, p);
    }
  }

  lemma SmallMultiple(d: int, p: int)
    requires -p < d < p && d % p == 0
    ensures d == 0
  {
    var q := d / p;
    assert d == p * q;
    assert q >= 1 ==> p * q >= p;
    assert q <= -1 ==> p * q <= -p;
  }

  lemma MultipleTimes(x: int, k: int, p: int)
    requires p > 0 && x % p == 0
    ensures (x * k) % p == 0
  {
    assert x * k == p * (x / p * k) + 0 by {
      assert x == p * (x / p);
      assert x * k == p * (x / p) * k == p * (x / p * k);
    }
    ModShift(x / p * k, 0, p);
  }

  lemma MultiplePlus(x: int, y: int, p: int)
    requires p > 0 && x % p == 0 && y % p == 0
    ensures (x + y) % p == 0
  {
    assert x + y == p * (x / p) + y;
    ModShift(x / p, y, p);
  }

  lemma CongruentTimes(a: int, b: int, c: int, d: int, p: int)
    requires p > 0 && Congruent(a, b, p) && Congruent(c, d, p)
    ensures Congruent(a * c, b * d, p)
  {
    CongruentIffMultiple(a, b, p);
    CongruentIffMultiple(c, d, p);
    MultipleTimes(a - b, c, p);
    MultipleTimes(c - d, b, p);
    MultiplePlus((a - b) * c, (c - d) * b, p);
    assert (a - b) * c + (c - d) * b == a * c - b * d;
    CongruentIffMultiple(a * c, b * d, p);
  }

  lemma CongruentPlus(a: int, b: int, c: int, d: int, p: int)
    requires p > 0 && Congruent(a, b, p) && Congruent(c, d, p)
    ensures Congruent(a + c, b + d, p)
  {
    CongruentIffMultiple(a, b, p);
    CongruentIffMultiple(c, d, p);
    MultiplePlus(a - b, c - d, p);
    CongruentIffMultiple(a + c, b + d, p);
  }

  lemma CongruentNegate(a: int, b: int, p: int)
    requires p > 0 && Congruent(a, b, p)
    ensures Congruent(-a, -b, p)
  {
    CongruentTimes(a, b, -1, -1, p);
  }

  lemma SmallCongruent(a: int, b: int, p: int)
    requires p > 0 && 0 <= a < p && 0 <= b < p && Congruent(a, b, p)
    ensures a == b
  {
    DivModUnique(a, p, 0, a);
    DivModUnique(b, p, 0, b);
  }

  // ----- Powers -----

  function Pow(b: int, e: nat): int {
    if e == 0 then 1 else b * Pow(b, e - 1)
  }

  lemma {:induction false} PowAdd(b: int, d: nat, e: nat)
    ensures Pow(b, d + e) == Pow(b, d) * Pow(b, e)
    decreases d
  {
    if d > 0 {
      PowAdd(b, d - 1, e);
      assert b * (Pow(b, d - 1) * Pow(b, e)) == b * Pow(b, d - 1) * Pow(b, e);
    }
  }

  lemma Regroup(a: int, b: int, x: int, y: int)
    ensures a * b * (x * y) == (a * x) * (b * y)
  {
    calc {
      a * b * (x * y);
      a * (b * (x * y));
      { assert b * (x * y) == x * (b * y); }
      a * (x * (b * y));
      (a * x) * (b * y);
    }
  }

  lemma {:induction false} PowTimes(a: int, b: int, e: nat)
    ensures Pow(a * b, e) == Pow(a, e) * Pow(b, e)
  {
    if e > 0 {
      PowTimes(a, b, e - 1);
      Regroup(a, b, Pow(a, e - 1), Pow(b, e - 1));
    }
  }

  lemma {:induction false} PowCongruent(a: int, b: int, e: nat, p: int)
    requires p > 0 && Congruent(a, b, p)
    ensures Congruent(Pow(a, e), Pow(b, e), p)
  {
    if e > 0 {
      PowCongruent(a, b, e - 1, p);
      CongruentTimes(a, b, Pow(a, e - 1), Pow(b, e - 1), p);
    }
  }

  // ----- Inverses modulo a prime -----

  /** The inverse of `a` modulo a prime, from the inverse of the smaller p % a. */
  ghost function Inverse(a: int, p: int): (v: int)
    requires IsPrime(p) && 0 < a < p
    ensures Congruent(a * v, 1, p)
    decreases a
  {
    if a == 1 then 1
    else
      var v := (p - p / a) * Inverse(p % a, p);
      InverseStep(a, p, Inverse(p % a, p));
      v
  }

  lemma InverseStep(a: int, p: int, w: int)
    requires IsPrime(p) && 1 < a < p && Congruent(p % a * w, 1, p)
    ensures Congruent(a * ((p - p / a) * w), 1, p)
  {
    var q, r := p / a, p % a;
    assert a * q == p - r;
    InverseProduct(a, q, r, w, p);
    ModShift(a * w - w, r * w, p);
  }

  lemma InverseProduct(a: int, q: int, r: int, w: int, p: int)
    requires a * q == p - r
    ensures a * ((p - q) * w) == p * (a * w - w) + r * w
  {
    assert a * ((p - q) * w) == a * w * p - a * q * w;
    assert a * q * w == (p - r) * w == p * w - r * w;
  }

  /** Euclid's lemma. */
  lemma NoZeroDivisors(x: int, y: int, p: int)
    requires IsPrime(p) && (x * y) % p == 0
    ensures x % p == 0 || y % p == 0
  {
    if x % p != 0 {
      var a := x % p;
      var v := Inverse(a, p);
      CongruentMod(x, p);
      CongruentTimes(x, a, y, y, p);
      MultipleTimes(a * y, v, p);
      CongruentTimes(a * v, 1, y, y, p);
      Rearranged(a, y, v);
    }
  }

  lemma Rearranged(a: int, y: int, v: int)
    ensures a * y * v == a * v * y
  {}

  /** A factor that p does not divide can be cancelled. */
  lemma Cancel(a: int, x: int, y: int, p: int)
    requires IsPrime(p) && a % p != 0 && Congruent(a * x, a * y, p)
    ensures Congruent(x, y, p)
  {
    CongruentIffMultiple(a * x, a * y, p);
    assert a * x - a * y == a * (x - y);
    NoZeroDivisors(a, x - y, p);
    CongruentIffMultiple(x, y, p);
  }

  // ----- Products over sets of residues -----

  /** The product of those of 1, ..., n that are in `s`. */
  ghost function Product(n: nat, s: set<int>): int {
    if n == 0 then 1 else (if n in s then n else 1) * Product(n - 1, s)
  }

  lemma {:induction false} ProductRemove(n: nat, s: set<int>, x: int)
    requires x in s && 1 <= x <= n
    ensures Product(n, s) == x * Product(n, s - {x})
  {
    if x == n {
      ProductSame(n - 1, s, s - {x});
    } else {
      ProductRemove(n - 1, s, x);
      var q := Product(n - 1, s - {x});
      assert n * (x * q) == x * (n * q);
    }
  }

  lemma {:induction false} ProductSame(n: nat, s: set<int>, t: set<int>)
    requires forall x :: 1 <= x <= n ==> (x in s <==> x in t)
    ensures Product(n, s) == Product(n, t)
  {
    if n > 0 {
      ProductSame(n - 1, s, t);
    }
  }

  ghost function Residues(p: int): (s: set<int>)
    requires p >= 1
    ensures forall x :: x in s <==> 1 <= x < p
    ensures |s| == p - 1
    decreases p
  {
    if p == 1 then {} else Residues(p - 1) + {p - 1}
  }

  /** The y with x * y congruent to a. */
  ghost function Partner(a: int, x: int, p: int): (y: int)
    requires IsPrime(p) && a % p != 0 && 0 < x < p
    ensures 0 < y < p && Congruent(x * y, a, p)
  {
    PartnerExists(a, x, p);
    var y :| 0 < y < p && Congruent(x * y, a, p);
    y
  }

  lemma PartnerExists(a: int, x: int, p: int)
    requires IsPrime(p) && a % p != 0 && 0 < x < p
    ensures exists y :: 0 < y < p && Congruent(x * y, a, p)
  {
    var v := Inverse(x, p);
    var y := (a * v) % p;
    CongruentMod(a * v, p);
    CongruentTimes(x, x, y, a * v, p);
    CongruentTimes(x * v, 1, a, a, p);
    assert x * (a * v) == x * v * a;
    assert Congruent(x * y, a, p);
  }

  lemma PartnerUnique(a: int, x: int, y: int, p: int)
    requires IsPrime(p) && a % p != 0 && 0 < x < p && 0 < y < p
    requires Congruent(x * y, a, p)
    ensures y == Partner(a, x, p)
  {
    DivModUnique(x, p, 0, x);
    Cancel(x, y, Partner(a, x, p), p);
    SmallCongruent(y, Partner(a, x, p), p);
  }

  lemma PartnerTwice(a: int, x: int, p: int)
    requires IsPrime(p) && a % p != 0 && 0 < x < p
    ensures Partner(a, Partner(a, x, p), p) == x
  {
    var y := Partner(a, x, p);
    assert y * x == x * y;
    PartnerUnique(a, y, x, p);
  }

  /** `s` splits into pairs with product congruent to `a`. */
  ghost predicate Paired(s: set<int>, a: int, p: int)
    requires IsPrime(p) && a % p != 0
  {
    && s <= Residues(p)
    && forall x {:trigger Partner(a, x, p)} :: x in s ==> Partner(a, x, p) in s && Partner(a, x, p) != x
  }

  lemma RemoveTwo(s: set<int>, x: int, y: int)
    requires x in s && y in s && x != y
    ensures |s| == |s - {x} - {y}| + 2
  {
    assert s == s - {x} - {y} + {x} + {y};
  }

  /** Taking one pair out leaves pairs. */
  lemma PairedRest(s: set<int>, x: int, a: int, p: int)
    requires IsPrime(p) && a % p != 0 && Paired(s, a, p) && x in s
    ensures Paired(s - {x} - {Partner(a, x, p)}, a, p)
    ensures |s| == |s - {x} - {Partner(a, x, p)}| + 2
  {
    var y := Partner(a, x, p);
    var t := s - {x} - {y};
    PartnerTwice(a, x, p);
    forall z | z in t
      ensures Partner(a, z, p) in t && Partner(a, z, p) != z
    {
      PartnerTwice(a, z, p);
    }
    RemoveTwo(s, x, y);
  }

  lemma PairProduct(s: set<int>, x: int, y: int, a: int, w: int, p: int)
    requires p > 1 && s <= Residues(p) && x in s && y in s && x != y
    requires Congruent(x * y, a, p) && Congruent(Product(p - 1, s - {x} - {y}), w, p)
    ensures Congruent(Product(p - 1, s), a * w, p)
  {
    ProductRemove(p - 1, s, x);
    ProductRemove(p - 1, s - {x}, y);
    PairTimes(Product(p - 1, s), Product(p - 1, s - {x}), Product(p - 1, s - {x} - {y}), x, y, a, w, p);
  }

  lemma PairTimes(u: int, v: int, q: int, x: int, y: int, a: int, w: int, p: int)
    requires p > 0 && u == x * v && v == y * q && Congruent(x * y, a, p) && Congruent(q, w, p)
    ensures Congruent(u, a * w, p)
  {
    assert x * (y * q) == x * y * q;
    CongruentTimes(x * y, a, q, w, p);
  }

  lemma OnePair(s: set<int>, x: int, a: int, j: nat, p: int)
    requires IsPrime(p) && a % p != 0 && Paired(s, a, p) && x in s
    requires Congruent(Product(p - 1, s - {x} - {Partner(a, x, p)}), Pow(a, j), p)
    ensures Congruent(Product(p - 1, s), Pow(a, j + 1), p)
  {
    var y := Partner(a, x, p);
    assert y in s && x != y && Congruent(x * y, a, p);
    PairProduct(s, x, y, a, Pow(a, j), p);
  }

  /** The product of k pairs is congruent to the power k of what each pair makes. */
  lemma {:induction false} Pairing(s: set<int>, a: int, p: int) returns (k: nat)
    requires IsPrime(p) && a % p != 0 && Paired(s, a, p)
    ensures |s| == 2 * k && Congruent(Product(p - 1, s), Pow(a, k), p)
    decreases |s|
  {
    if s == {} {
      ProductEmpty(p - 1);
      k := 0;
    } else {
      var x :| x in s;
      PairedRest(s, x, a, p);
      var j := Pairing(s - {x} - {Partner(a, x, p)}, a, p);
      OnePair(s, x, a, j, p);
      k := j + 1;
    }
  }

  lemma {:induction false} ProductEmpty(n: nat)
    ensures Product(n, {}) == 1
  {
    if n > 0 { ProductEmpty(n - 1); }
  }

  // ----- Wilson's theorem -----

  /** The square roots of one are 1 and p - 1. */
  lemma RootsOfOne(x: int, p: int)
    requires IsPrime(p) && 0 < x < p && Congruent(x * x, 1, p)
    ensures x == 1 || x == p - 1
  {
    CongruentIffMultiple(x * x, 1, p);
    assert x * x - 1 == (x - 1) * (x + 1);
    NoZeroDivisors(x - 1, x + 1, p);
    if (x - 1) % p == 0 {
      DivModUnique(x - 1, p, 0, x - 1);
    } else if x + 1 < p {
      DivModUnique(x + 1, p, 0, x + 1);
    }
  }

  lemma SelfInverse(p: int)
    requires OddPrime(p)
    ensures p >= 3 && Partner(1, 1, p) == 1 && Partner(1, p - 1, p) == p - 1
  {
    assert 1 * 1 == 1;
    PartnerUnique(1, 1, 1, p);
    assert (p - 1) * (p - 1) == p * (p - 2) + 1;
    ModShift(p - 2, 1, p);
    PartnerUnique(1, p - 1, p - 1, p);
  }

  lemma Wilson(p: int)
    requires OddPrime(p)
    ensures Congruent(Product(p - 1, Residues(p)), -1, p)
  {
    SelfInverse(p);
    DivModUnique(1, p, 0, 1);
    var all := Residues(p);
    var s := all - {1} - {p - 1};
    forall x | x in s
      ensures Partner(1, x, p) in s && Partner(1, x, p) != x
    {
      PartnerTwice(1, x, p);
      if Partner(1, x, p) == x { RootsOfOne(x, p); }
    }
    var k := Pairing(s, 1, p);
    PowOne(k);
    ProductRemove(p - 1, all, 1);
    ProductRemove(p - 1, all - {1}, p - 1);
    var q := Product(p - 1, s);
    CongruentTimes(q, 1, p - 1, p - 1, p);
    ModShift(1, -1, p);
    assert Product(p - 1, all) == (p - 1) * q;
  }

  lemma {:induction false} PowOne(e: nat)
    ensures Pow(1, e) == 1
  {
    if e > 0 { PowOne(e - 1); }
  }

  // ----- Euler's criterion -----

  ghost predicate IsRoot(r: int, a: int, p: int)
    requires p > 0
  {
    0 < r < p && Congruent(r * r, a, p)
  }

  /** `a` is the square of a residue that p does not divide. */
  ghost predicate NonzeroSquare(a: int, p: int)
    requires p > 0
  {
    exists r :: IsRoot(r, a, p)
  }

  /** A square has exactly the two roots r and p - r. */
  lemma OtherRoot(r: int, s: int, a: int, p: int)
    requires IsPrime(p) && IsRoot(r, a, p) && IsRoot(s, a, p)
    ensures s == r || s == p - r
  {
    CongruentIffMultiple(s * s, r * r, p);
    assert s * s - r * r == (s - r) * (s + r);
    NoZeroDivisors(s - r, s + r, p);
    if (s - r) % p == 0 {
      if s >= r { DivModUnique(s - r, p, 0, s - r); } else { DivModUnique(s - r, p, -1, s - r + p); }
    } else {
      if s + r < p { DivModUnique(s + r, p, 0, s + r); } else { DivModUnique(s + r, p, 1, s + r - p); }
    }
  }

  lemma NegatedRoot(r: int, a: int, p: int)
    requires p > 0 && IsRoot(r, a, p)
    ensures IsRoot(p - r, a, p)
  {
    NegativeSquare(p, r);
    ModShift(p - 2 * r, r * r, p);
  }

  lemma SelfPartner(a: int, x: int, p: int)
    requires IsPrime(p) && a % p != 0 && 0 < x < p
    ensures Partner(a, x, p) == x ==> NonzeroSquare(a, p)
  {
    if Partner(a, x, p) == x { assert IsRoot(x, a, p); }
  }

  lemma EulerNonsquare(a: int, p: int)
    requires OddPrime(p) && a % p != 0 && !NonzeroSquare(a, p)
    ensures Congruent(Pow(a, (p - 1) / 2), -1, p)
  {
    var all := Residues(p);
    assert Paired(all, a, p) by {
      forall x | x in all
        ensures Partner(a, x, p) in all && Partner(a, x, p) != x
      {
        SelfPartner(a, x, p);
      }
    }
    var k := Pairing(all, a, p);
    assert k == (p - 1) / 2;
    Wilson(p);
  }

  lemma SquarePaired(a: int, r: int, p: int)
    requires OddPrime(p) && a % p != 0 && IsRoot(r, a, p)
    ensures Paired(Residues(p) - {r} - {p - r}, a, p)
  {
    NegatedRoot(r, a, p);
    PartnerUnique(a, r, r, p);
    PartnerUnique(a, p - r, p - r, p);
    forall x | x in Residues(p) - {r} - {p - r}
      ensures Partner(a, x, p) in Residues(p) - {r} - {p - r} && Partner(a, x, p) != x
    {
      PartnerTwice(a, x, p);
      if Partner(a, x, p) == x { OtherRoot(r, x, a, p); }
    }
  }

  lemma TwoOut(r: int, p: int)
    requires 0 < r < p && p % 2 == 1
    ensures |Residues(p) - {r} - {p - r}| == p - 3
  {
    RemoveTwo(Residues(p), r, p - r);
  }

  lemma SquarePairing(a: int, r: int, p: int) returns (k: nat)
    requires OddPrime(p) && a % p != 0 && IsRoot(r, a, p)
    ensures 2 * k == p - 3
    ensures Congruent(Product(p - 1, Residues(p) - {r} - {p - r}), Pow(a, k), p)
  {
    SquarePaired(a, r, p);
    TwoOut(r, p);
    k := Pairing(Residues(p) - {r} - {p - r}, a, p);
  }

  lemma EulerSquare(a: int, r: int, p: int)
    requires OddPrime(p) && a % p != 0 && IsRoot(r, a, p)
    ensures Congruent(Pow(a, (p - 1) / 2), 1, p)
  {
    var k := SquarePairing(a, r, p);
    RootProduct(r, a, p);
    PairProduct(Residues(p), r, p - r, -a, Pow(a, k), p);
    Wilson(p);
    NegatedProduct(Product(p - 1, Residues(p)), a, Pow(a, k), p);
  }

  lemma NegatedProduct(u: int, a: int, w: int, p: int)
    requires p > 0 && Congruent(u, -a * w, p) && Congruent(u, -1, p)
    ensures Congruent(a * w, 1, p)
  {
    CongruentNegate(-a * w, -1, p);
    assert -(-a * w) == a * w;
  }

  lemma RootProduct(r: int, a: int, p: int)
    requires p > 0 && IsRoot(r, a, p)
    ensures Congruent(r * (p - r), -a, p)
  {
    assert r * (p - r) == p * r + -(r * r);
    ModShift(r, -(r * r), p);
    CongruentNegate(r * r, a, p);
  }

  /** Euler's criterion: the power (p - 1) / 2 tells squares from the rest. */
  lemma Euler(a: int, p: int)
    requires OddPrime(p)
    ensures a % p == 0 ==> Pow(a, (p - 1) / 2) % p == 0
    ensures a % p != 0 && NonzeroSquare(a, p) ==> Pow(a, (p - 1) / 2) % p == 1
    ensures a % p != 0 && !NonzeroSquare(a, p) ==> Pow(a, (p - 1) / 2) % p == p - 1
  {
    if a % p == 0 {
      MultipleTimes(a, Pow(a, (p - 1) / 2 - 1), p);
    } else if NonzeroSquare(a, p) {
      var r :| IsRoot(r, a, p);
      EulerSquare(a, r, p);
      DivModUnique(1, p, 0, 1);
    } else {
      EulerNonsquare(a, p);
      DivModUnique(-1, p, -1, p - 1);
    }
  }
}
