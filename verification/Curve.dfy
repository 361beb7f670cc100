/**
  Short Weierstrass curve code of framework/src/hostap/crypto_mbedtls_mm.c: evaluating the
  curve equation and recovering y from x (section 2.3.4 of SEC 1).
 */
module Curve {

  import opened Arithmetic
  import opened NumberTheory
  import opened Bignum

  /** The parts of an mbedtls_ecp_group that the code reads.  `aSet` is false when the A
      number has no limbs, which stands for A = -3. */
  class Group {
    const P: Mpi
    const A: Mpi
    const B: Mpi
    const aSet: bool

    constructor (P: Mpi, A: Mpi, B: Mpi, aSet: bool)
      ensures this.P == P && this.A == A && this.B == B && this.aSet == aSet
    {
      this.P, this.A, this.B, this.aSet := P, A, B, aSet;
    }

    function Coefficient(): int
      reads A
    {
      if aSet then A.v else -3
    }

    /** x^3 + ax + b modulo p. */
    function RightSide(x: int): int
      requires P.v > 0
      reads P, A, B
    {
      (x * x * x + Coefficient() * x + B.v) % P.v
    }
  }

  /** The curve equation y^2 = x^3 + ax + b modulo p, where a is -3 if A is unset. */
  ghost predicate OnCurve(g: Group, x: int, y: int)
    requires g.P.v > 0
    reads g.P, g.A, g.B
  {
    Congruent(y * y, x * x * x + (if g.aSet then g.A.v else -3) * x + g.B.v, g.P.v)
  }

  /** The right side is the residue of x^3 + ax + b. */
  lemma RightSideIs(g: Group, x: int)
    requires g.P.v > 0
    ensures 0 <= g.RightSide(x) < g.P.v
    ensures Congruent(g.RightSide(x), x * x * x + (if g.aSet then g.A.v else -3) * x + g.B.v, g.P.v)
  {
    CongruentMod(x * x * x + (if g.aSet then g.A.v else -3) * x + g.B.v, g.P.v);
  }

  lemma ModPlusMod(a: int, b: int, p: int)
    requires p > 0
    ensures (a % p + b) % p == (a + b) % p
  {
    CongruentMod(a, p);
    CongruentPlus(a % p, a, b, b, p);
  }

  lemma ModTimesMod(a: int, b: int, p: int)
    requires p > 0
    ensures (a % p * b) % p == (a * b) % p
  {
    CongruentMod(a, p);
    CongruentTimes(a % p, a, b, b, p);
  }

  lemma Distributes(u: int, v: int, x: int)
    ensures (u + v) * x == u * x + v * x
  {}

  /** Horner's scheme with a reduction after every step. */
  lemma Horner(x: int, a: int, b: int, p: int)
    requires p > 0
    ensures ((((x * x) % p + a) % p * x) % p + b) % p == (x * x * x + a * x + b) % p
  {
    ModPlusMod(x * x, a, p);
    ModTimesMod(x * x + a, x, p);
    Distributes(x * x, a, x);
    ModPlusMod(x * x * x + a * x, b, p);
  }

  /** crypto_ec_point_y_sqr_weierstrass: y2 becomes x^3 + ax + b modulo p. */
  method YSqr(e: Group, x: Mpi, y2: Mpi, mem: bool) returns (ret: int)
    requires y2 != x && y2 != e.P && y2 != e.A && y2 != e.B
    modifies y2
    ensures ret == 0 || ret == 1
    ensures e.P.v <= 0 ==> ret != 0
    ensures mem && e.P.v > 0 ==> ret == 0
    ensures ret == 0 ==> e.P.v > 0 && y2.v == e.RightSide(x.v)
    ensures ret == 0 ==>
              y2.v == (x.v * x.v * x.v + (if e.aSet then e.A.v else -3) * x.v + e.B.v) % e.P.v
  {
    ret := y2.Mul(x, x, mem);
    if ret != 0 { return 1; }
    ret := y2.Mod(y2, e.P, mem);
    if ret != 0 { return 1; }
    if e.aSet {
      ret := y2.Add(y2, e.A, mem);
    } else {
      ret := y2.AddInt(y2, -3, mem);
    }
    if ret != 0 { return 1; }
    ret := y2.Mod(y2, e.P, mem);
    if ret != 0 { return 1; }
    ret := y2.Mul(y2, x, mem);
    if ret != 0 { return 1; }
    ret := y2.Mod(y2, e.P, mem);
    if ret != 0 { return 1; }
    ret := y2.Add(y2, e.B, mem);
    if ret != 0 { return 1; }
    ret := y2.Mod(y2, e.P, mem);
    if ret != 0 { return 1; }
    Horner(x.v, e.Coefficient(), e.B.v, e.P.v);
  }

  // ----- Square roots modulo a prime that is 3 modulo 4 -----

  /** `w` is a square modulo p, zero included. */
  ghost predicate IsSquare(w: int, p: int)
    requires p > 0
  {
    w % p == 0 || NonzeroSquare(w, p)
  }

  /** The power (p + 1) / 4 squares to w or to -w, as w is a square or not. */
  lemma RootPower(w: int, p: int)
    requires IsPrime(p) && p % 4 == 3
    ensures var r := Pow(w, (p + 1) / 4);
            Congruent(r * r, if IsSquare(w, p) then w else -w, p)
  {
    var h, q := (p - 1) / 2, (p + 1) / 4;
    var r := Pow(w, q);
    PowAdd(w, q, q);
    assert q + q == 1 + h;
    assert r * r == w * Pow(w, h);
    Euler(w, p);
    DivModUnique(1, p, 0, 1);
    DivModUnique(-1, p, -1, p - 1);
    if w % p == 0 {
      MultipleTimes(w, Pow(w, h), p);
    } else if NonzeroSquare(w, p) {
      CongruentTimes(w, w, Pow(w, h), 1, p);
    } else {
      CongruentTimes(w, w, Pow(w, h), -1, p);
      assert w * -1 == -w;
    }
  }

  /** A nonsquare is not congruent to its own negative. */
  lemma NonsquareSign(w: int, p: int)
    requires OddPrime(p) && !IsSquare(w, p)
    ensures !Congruent(-w, w, p)
  {
    if Congruent(-w, w, p) {
      CongruentIffMultiple(w, -w, p);
      assert w - -w == 2 * w;
      NoZeroDivisors(2, w, p);
      DivModUnique(2, p, 0, 2);
    }
  }

  lemma ReducedRoot(r: int, w: int, p: int)
    requires p > 0 && Congruent(r * r, w, p)
    ensures Congruent((r % p) * (r % p), w, p)
    ensures Congruent((p - r % p) * (p - r % p), w, p)
  {
    var s := r % p;
    CongruentMod(r, p);
    CongruentTimes(s, r, s, r, p);
    NegativeSquare(p, s);
    ModShift(p - 2 * s, s * s, p);
  }

  lemma ZeroRoot(s: int, w: int, p: int)
    requires IsPrime(p) && 0 <= s < p && Congruent(s * s, w, p)
    ensures s == 0 <==> w % p == 0
  {
    if s == 0 {
      DivModUnique(0, p, 0, 0);
    } else if w % p == 0 {
      NoZeroDivisors(s, s, p);
      DivModUnique(s, p, 0, s);
    }
  }

  lemma NegatedMultiple(w: int, p: int)
    requires p > 0
    ensures (-w) % p == 0 <==> w % p == 0
  {
    if w % p == 0 { MultipleTimes(w, -1, p); }
    if (-w) % p == 0 { MultipleTimes(-w, -1, p); }
  }

  /** What the result of derive_y has to be: a root exactly when there is one, with the asked-for
      parity.  Only a zero right side that is not asked to be even leaves the range of residues.
      A parity that is no bit gives the negative of the power itself. */
  ghost predicate DerivedFrom(y: int, w: int, parity: int, p: int)
    requires p > 0
  {
    && (0 <= parity <= 1 ==> y % 2 == parity)
    && (!(0 <= parity <= 1) && p % 4 == 3 ==> y == p - Pow(w, (p + 1) / 4) % p)
    && (Congruent(y * y, w, p) <==> IsSquare(w, p))
    && (!IsSquare(w, p) ==> Congruent(y * y, -w, p))
    && (if w % p == 0 && parity != 0 then y == p else 0 <= y < p)
  }

  /** Squaring to w or to -w decides what a candidate is. */
  lemma CandidateSign(y: int, w: int, p: int)
    requires OddPrime(p) && Congruent(y * y, if IsSquare(w, p) then w else -w, p)
    ensures Congruent(y * y, w, p) <==> IsSquare(w, p)
    ensures !IsSquare(w, p) ==> Congruent(y * y, -w, p)
  {
    if !IsSquare(w, p) { NonsquareSign(w, p); }
  }

  lemma CandidateZero(s: int, w: int, p: int)
    requires IsPrime(p) && 0 <= s < p && Congruent(s * s, if IsSquare(w, p) then w else -w, p)
    ensures s == 0 <==> w % p == 0
  {
    ZeroRoot(s, if IsSquare(w, p) then w else -w, p);
    NegatedMultiple(w, p);
  }

  /** A root of w, or of -w when w is no square. */
  ghost predicate Candidate(y: int, w: int, p: int)
    requires p > 0
  {
    && (Congruent(y * y, w, p) <==> IsSquare(w, p))
    && (!IsSquare(w, p) ==> Congruent(y * y, -w, p))
  }

  lemma OtherParity(s: int, p: int)
    requires p % 2 == 1
    ensures (p - s) % 2 == 1 - s % 2
  {}

  lemma ParityChoice(s: int, w: int, parity: int, p: int)
    requires OddPrime(p) && 0 <= s < p && (p % 4 == 3 ==> s == Pow(w, (p + 1) / 4) % p)
    requires s == 0 <==> w % p == 0
    requires Candidate(s, w, p) && Candidate(p - s, w, p)
    ensures DerivedFrom(if s % 2 == parity then s else p - s, w, parity, p)
  {
    OtherParity(s, p);
  }

  lemma RootChoiceFrom(r: int, w: int, parity: int, p: int)
    requires OddPrime(p) && (p % 4 == 3 ==> r == Pow(w, (p + 1) / 4))
    requires Congruent(r * r, if IsSquare(w, p) then w else -w, p)
    ensures DerivedFrom(if r % p % 2 == parity then r % p else p - r % p, w, parity, p)
  {
    ReducedRoot(r, if IsSquare(w, p) then w else -w, p);
    CandidateZero(r % p, w, p);
    CandidateSign(r % p, w, p);
    CandidateSign(p - r % p, w, p);
    ParityChoice(r % p, w, parity, p);
  }

  lemma RootChoice(w: int, parity: int, p: int)
    requires IsPrime(p) && p % 4 == 3
    ensures var s := Pow(w, (p + 1) / 4) % p;
            DerivedFrom(if s % 2 == parity then s else p - s, w, parity, p)
  {
    RootPower(w, p);
    RootChoiceFrom(Pow(w, (p + 1) / 4), w, parity, p);
  }

  /** The second half of derive_y: a square root of cy2 with the given parity, into bn. */
  method SquareRoot(p: Mpi, cy2: Mpi, bn: Mpi, parity: int, mem: bool) returns (ret: int)
    requires bn != p && bn != cy2 && p.v > 0
    modifies bn
    ensures ret == 0 || ret == 1
    ensures p.v % 4 != 3 ==> ret != 0
    ensures mem && p.v % 4 == 3 ==> ret == 0
    ensures ret == 0 && IsPrime(p.v) ==> DerivedFrom(bn.v, cy2.v, parity, p.v)
  {
    BitsOfP(p.v);
    if p.GetBit(0) != 1 || p.GetBit(1) != 1 {
      return 1;
    }
    var exp := new Mpi(0);
    ret := exp.AddInt(p, 1, mem);
    if ret != 0 { return 1; }
    ret := exp.ShiftRight(2, mem);
    if ret != 0 { return 1; }
    ret := bn.ExpMod(cy2, exp, p, mem);
    if ret != 0 { return 1; }
    assert Pow2(2) == 4 && Pow2(0) == 1;
    assert bn.v == Pow(cy2.v, (p.v + 1) / 4) % p.v;
    if IsPrime(p.v) { RootChoice(cy2.v, parity, p.v); }
    if bn.GetBit(0) != parity {
      ret := bn.Sub(p, bn, mem);
      if ret != 0 { return 1; }
    }
  }

  /** crypto_mbedtls_short_weierstrass_derive_y: bn holds x on entry and y on success. */
  method DeriveY(grp: Group, bn: Mpi, parity: int, mem: bool) returns (ret: int)
    requires bn != grp.P && bn != grp.A && bn != grp.B
    modifies bn
    ensures -1 <= ret <= 1
    ensures grp.P.v <= 0 || grp.P.v % 4 != 3 ==> ret != 0
    ensures mem && grp.P.v > 0 && grp.P.v % 4 == 3 ==> ret == 0
    ensures ret == 0 ==> grp.P.v > 0
    ensures ret == 0 && IsPrime(grp.P.v) ==>
              DerivedFrom(bn.v, grp.RightSide(old(bn.v)), parity, grp.P.v)
    ensures ret == 0 && IsPrime(grp.P.v) ==>
              (OnCurve(grp, old(bn.v), bn.v) <==> exists y :: OnCurve(grp, old(bn.v), y))
  {
    var cy2 := new Mpi(0);
    ret := YSqr(grp, bn, cy2, mem);
    if ret != 0 {
      return -1;
    }
    ret := SquareRoot(grp.P, cy2, bn, parity, mem);
    if ret == 0 && IsPrime(grp.P.v) {
      DerivedOnCurve(grp, old(bn.v), bn.v, parity);
    }
  }

  lemma SquareOf(z: int, w: int, p: int)
    requires p > 0 && Congruent(z * z, w, p)
    ensures IsSquare(w, p)
  {
    var s := z % p;
    CongruentMod(z, p);
    CongruentTimes(s, z, s, z, p);
    if s == 0 {
      DivModUnique(0, p, 0, 0);
    } else {
      assert IsRoot(s, w, p);
    }
  }

  /** A derived y is on the curve exactly when the curve has a point with that x. */
  lemma DerivedOnCurve(g: Group, x: int, y: int, parity: int)
    requires g.P.v > 0 && DerivedFrom(y, g.RightSide(x), parity, g.P.v)
    ensures OnCurve(g, x, y) <==> exists z :: OnCurve(g, x, z)
  {
    RightSideIs(g, x);
    if z :| OnCurve(g, x, z) { SquareOf(z, g.RightSide(x), g.P.v); }
  }

  lemma BitsOfP(v: int)
    requires v > 0
    ensures Pow2(0) == 1 && Pow2(1) == 2
    ensures v / 1 % 2 == 1 && v / 2 % 2 == 1 <==> v % 4 == 3
  {
    var q, r := v / 4, v % 4;
    assert v == 2 * (2 * q) + r;
    if r >= 2 { DivModUnique(v, 2, 2 * q + 1, r - 2); } else { DivModUnique(v, 2, 2 * q, r); }
  }

  lemma ModuloSeven()
    ensures IsPrime(7) && !IsSquare(3, 7)
  {
    forall r
      ensures !IsRoot(r, 3, 7)
    {
      if 0 < r < 7 {
        assert r == 1 || r == 2 || r == 3 || r == 4 || r == 5 || r == 6;
      }
    }
  }

  /** On y^2 = x^3 + x modulo 7: the zero at x = 0, asked to be odd, comes out as 7. */
  method DeriveYOddZero() returns (ret: int, y: int)
    ensures ret == 0 && y == 7
  {
    ModuloSeven();
    var p := new Mpi(7);
    var a := new Mpi(1);
    var b := new Mpi(0);
    var bn := new Mpi(0);
    var grp := new Group(p, a, b, true);
    ret := DeriveY(grp, bn, 1, true);
    y := bn.v;
  }

  /** On the same curve there is no point with x = 2, where the right side is 3; what comes out
      squares to 4, which is -3. */
  method DeriveYNoRoot() returns (ret: int, y: int)
    ensures ret == 0 && !IsSquare(3, 7) && Congruent(y * y, 4, 7) && !Congruent(y * y, 3, 7)
  {
    ModuloSeven();
    var p := new Mpi(7);
    var a := new Mpi(1);
    var b := new Mpi(0);
    var bn := new Mpi(2);
    var grp := new Group(p, a, b, true);
    ret := DeriveY(grp, bn, 0, true);
    y := bn.v;
  }

  lemma ModuloTwentyThree()
    ensures IsPrime(23) && IsRoot(16, 3, 23)
  {}

  /** On y^2 = x^3 - 3x + 5 modulo 23, with A unset: the right side at x = 1 is 3, and the even y
      is 16. */
  method DeriveYExample() returns (w: int, y: int)
    ensures w == 3 && y == 16
  {
    ModuloTwentyThree();
    var p := new Mpi(23);
    var a := new Mpi(0);
    var b := new Mpi(5);
    var x := new Mpi(1);
    var y2 := new Mpi(0);
    var grp := new Group(p, a, b, false);
    var ret := YSqr(grp, x, y2, true);
    w := y2.v;
    ret := DeriveY(grp, x, 0, true);
    y := x.v;
    SquareOf(16, 3, 23);
    EvenRoot(y, 3, 23);
  }

  /** With parity 0 the result is the even root whenever there is a root, and the only one. */
  lemma EvenRoot(y: int, w: int, p: int)
    requires IsPrime(p) && p % 4 == 3 && IsSquare(w, p) && DerivedFrom(y, w, 0, p)
    ensures 0 <= y < p && y % 2 == 0 && Congruent(y * y, w, p)
    ensures forall s :: IsRoot(s, w, p) ==> s == y || s == p - y
    ensures forall s :: IsRoot(s, w, p) && s % 2 == 0 ==> s == y
  {
    forall s | IsRoot(s, w, p)
      ensures s == y || s == p - y
    {
      ZeroRoot(s, w, p);
      ZeroRoot(y, w, p);
      OtherRoot(y, s, w, p);
    }
  }

  /** Negation modulo p is its own inverse on the residues. */
  lemma NegatedTwice(x: int, y: int, z: int, p: int)
    requires 0 <= x < p && 0 <= y < p && 0 <= z < p
    requires (x + y) % p == 0 && (y + z) % p == 0
    ensures x == z
  {
    MultipleTimes(y + z, -1, p);
    MultiplePlus(x + y, -(y + z), p);
    assert (y + z) * -1 == -(y + z);
    SmallMultiple(x - z, p);
  }

  /** Inverting twice gives the point back. */
  method PointInvertTwice(p: Mpi, infinity: bool, y: Mpi) returns (ret: int)
    requires y != p && (infinity || 0 <= y.v < p.v)
    modifies y
    ensures ret == 0 && y.v == old(y.v)
  {
    ret := PointInvert(false, p, infinity, y, true);
    ghost var z := y.v;
    ret := PointInvert(false, p, infinity, y, true);
    if !infinity { NegatedTwice(old(y.v), z, y.v, p.v); }
  }

  lemma NegatedSquare(y: int, p: int)
    requires 0 < y < p
    ensures 0 < p - y < p && (y + (p - y)) % p == 0
    ensures Congruent((p - y) * (p - y), y * y, p)
  {
    DivModUnique(p, p, 1, 0);
    NegativeSquare(p, y);
    ModShift(p - 2 * y, y * y, p);
  }

  /** crypto_ec_point_invert: y becomes -y modulo p, with the same square, so the point stays
      on the curve; the point at infinity is left alone. */
  method PointInvert(montgomery: bool, p: Mpi, infinity: bool, y: Mpi, mem: bool) returns (ret: int)
    requires y != p
    modifies y
    ensures ret == 0 || ret == -1
    ensures montgomery ==> ret == -1
    ensures montgomery || infinity ==> y.v == old(y.v)
    ensures !montgomery && infinity ==> ret == 0
    ensures !montgomery && mem && 0 <= old(y.v) < p.v ==> ret == 0
    ensures !montgomery && !infinity && Abs(old(y.v)) > Abs(p.v) ==> ret == -1
    ensures !montgomery && mem && Abs(old(y.v)) <= Abs(p.v) ==> ret == 0
    ensures ret == 0 && !infinity && old(y.v) != 0 ==> y.v == Abs(p.v) - Abs(old(y.v))
    ensures ret == 0 && !infinity && 0 <= old(y.v) < p.v ==>
              && 0 <= y.v < p.v && (old(y.v) + y.v) % p.v == 0
              && Congruent(y.v * y.v, old(y.v) * old(y.v), p.v)
  {
    if montgomery {
      return -1;
    }
    if infinity || y.v == 0 {
      if p.v > 0 { DivModUnique(0, p.v, 0, 0); }
      return 0;
    }
    if 0 < y.v < p.v { NegatedSquare(y.v, p.v); }
    var rc := y.SubAbs(p, y, mem);
    ret := if rc == 0 then 0 else -1;
  }
}
