/**
  Big integers as framework/src/hostap/crypto_mbedtls_mm.c uses them.

  An mbedtls_mpi is an object holding a mathematical integer.  The foreign mbedTLS calls
  follow their documentation: they return 0 for success; with `mem` false any call may run
  out of memory, and a failed call leaves its result unspecified.
 */
module Bignum {

  import opened Arithmetic
  import opened Words
  import opened NumberTheory
  import Primality
  import ConstTime

  const OUT_OF_MEMORY: int := -16
  const BAD_INPUT: int := -4
  const NEGATIVE_VALUE: int := -10

  function Abs(v: int): int {
    if v < 0 then -v else v
  }

  class Mpi {
    var v: int

    constructor (v: int)
      ensures this.v == v
    {
      this.v := v;
    }

    /** mbedtls_mpi_add_mpi */
    method Add(a: Mpi, b: Mpi, mem: bool) returns (ret: int)
      modifies this
      ensures mem ==> ret == 0
      ensures ret == 0 ==> v == old(a.v) + old(b.v)
    {
      if mem { v, ret := a.v + b.v, 0; } else { v := *; ret := OUT_OF_MEMORY; }
    }

    /** mbedtls_mpi_add_int and, with a negative number, mbedtls_mpi_sub_int */
    method AddInt(a: Mpi, k: int, mem: bool) returns (ret: int)
      modifies this
      ensures mem ==> ret == 0
      ensures ret == 0 ==> v == old(a.v) + k
    {
      if mem { v, ret := a.v + k, 0; } else { v := *; ret := OUT_OF_MEMORY; }
    }

    /** mbedtls_mpi_sub_mpi */
    method Sub(a: Mpi, b: Mpi, mem: bool) returns (ret: int)
      modifies this
      ensures mem ==> ret == 0
      ensures ret == 0 ==> v == old(a.v) - old(b.v)
    {
      if mem { v, ret := a.v - b.v, 0; } else { v := *; ret := OUT_OF_MEMORY; }
    }

    /** mbedtls_mpi_sub_abs: the difference of the absolute values must not be negative. */
    method SubAbs(a: Mpi, b: Mpi, mem: bool) returns (ret: int)
      modifies this
      ensures Abs(old(a.v)) < Abs(old(b.v)) ==> ret != 0
      ensures mem && Abs(old(a.v)) >= Abs(old(b.v)) ==> ret == 0
      ensures ret == 0 ==> v == Abs(old(a.v)) - Abs(old(b.v))
    {
      if Abs(a.v) < Abs(b.v) {
        ret := NEGATIVE_VALUE;
      } else if mem {
        v, ret := Abs(a.v) - Abs(b.v), 0;
      } else {
        v := *;
        ret := OUT_OF_MEMORY;
      }
    }

    /** mbedtls_mpi_mul_mpi */
    method Mul(a: Mpi, b: Mpi, mem: bool) returns (ret: int)
      modifies this
      ensures mem ==> ret == 0
      ensures ret == 0 ==> v == old(a.v) * old(b.v)
    {
      if mem { v, ret := a.v * b.v, 0; } else { v := *; ret := OUT_OF_MEMORY; }
    }

    /** mbedtls_mpi_mod_mpi: zero and negative moduli are errors, the result is never negative. */
    method Mod(a: Mpi, b: Mpi, mem: bool) returns (ret: int)
      modifies this
      ensures old(b.v) <= 0 ==> ret != 0
      ensures mem && old(b.v) > 0 ==> ret == 0
      ensures ret == 0 ==> v == old(a.v) % old(b.v)
    {
      if b.v <= 0 {
        ret := BAD_INPUT;
      } else if mem {
        v, ret := a.v % b.v, 0;
      } else {
        v := *;
        ret := OUT_OF_MEMORY;
      }
    }

    /** mbedtls_mpi_shift_r: shifts the absolute value. */
    method ShiftRight(k: nat, mem: bool) returns (ret: int)
      modifies this
      ensures mem ==> ret == 0
      ensures ret == 0 ==> v == ShiftedRight(old(v), k)
    {
      if mem { v, ret := ShiftedRight(v, k), 0; } else { v := *; ret := OUT_OF_MEMORY; }
    }

    /** mbedtls_mpi_copy */
    method Copy(a: Mpi, mem: bool) returns (ret: int)
      modifies this
      ensures mem ==> ret == 0
      ensures ret == 0 ==> v == old(a.v)
    {
      if mem { v, ret := a.v, 0; } else { v := *; ret := OUT_OF_MEMORY; }
    }

    /** mbedtls_mpi_exp_mod: the modulus must be positive and odd, the exponent not negative. */
    method ExpMod(a: Mpi, e: Mpi, n: Mpi, mem: bool) returns (ret: int)
      modifies this
      ensures old(n.v) <= 0 || old(n.v) % 2 == 0 || old(e.v) < 0 ==> ret != 0
      ensures mem && old(n.v) > 0 && old(n.v) % 2 == 1 && old(e.v) >= 0 ==> ret == 0
      ensures ret == 0 ==> v == Pow(old(a.v), old(e.v)) % old(n.v)
    {
      if n.v <= 0 || n.v % 2 == 0 || e.v < 0 {
        ret := BAD_INPUT;
      } else if mem {
        v, ret := Pow(a.v, e.v) % n.v, 0;
      } else {
        v := *;
        ret := OUT_OF_MEMORY;
      }
    }

    /** mbedtls_mpi_get_bit */
    function GetBit(k: nat): int
      reads this
    {
      Abs(v) / Pow2(k) % 2
    }
  }

  function ShiftedRight(v: int, k: nat): int {
    if v < 0 then -(-v / Pow2(k)) else v / Pow2(k)
  }

  // ----- Modular wrappers and the aliasing of their arguments -----

  /** crypto_bignum_exptmod: right however the result object is shared with the arguments. */
  method ExptMod(a: Mpi, b: Mpi, c: Mpi, d: Mpi, mem: bool) returns (ret: int)
    modifies d
    ensures ret == 0 || ret == -1
    ensures mem && old(c.v) > 0 && old(c.v) % 2 == 1 && old(b.v) >= 0 ==> ret == 0
    ensures ret == 0 ==> old(c.v) > 0 && old(b.v) >= 0 && d.v == Pow(old(a.v), old(b.v)) % old(c.v)
  {
    if b == d || c == d {
      var r := new Mpi(0);
      var rc := r.ExpMod(a, b, c, mem);
      if rc == 0 {
        rc := d.Copy(r, mem);
      }
      ret := if rc != 0 then -1 else 0;
    } else {
      var rc := d.ExpMod(a, b, c, mem);
      ret := if rc != 0 then -1 else 0;
    }
  }

  /** crypto_bignum_mulmod: right unless the result object is the modulus itself; then the
      product has overwritten the modulus, and the outcome is 0 or an error. */
  method MulMod(a: Mpi, b: Mpi, c: Mpi, d: Mpi, mem: bool) returns (ret: int)
    modifies d
    ensures ret == 0 || ret == -1
    ensures d != c && mem && old(c.v) > 0 ==> ret == 0
    ensures d != c && ret == 0 ==> old(c.v) > 0 && d.v == old(a.v) * old(b.v) % old(c.v)
    ensures d == c && ret == 0 ==> d.v == 0 && old(a.v) * old(b.v) > 0
    ensures d == c && mem ==> (ret == 0 <==> old(a.v) * old(b.v) > 0)
  {
    var rc := d.Mul(a, b, mem);
    if rc == 0 {
      rc := d.Mod(d, c, mem);
    }
    ret := if rc != 0 then -1 else 0;
    if d == c && ret == 0 {
      DivModUnique(old(a.v) * old(b.v), old(a.v) * old(b.v), 1, 0);
    }
  }

  /** crypto_bignum_addmod: the same, for sums. */
  method AddMod(a: Mpi, b: Mpi, c: Mpi, d: Mpi, mem: bool) returns (ret: int)
    modifies d
    ensures ret == 0 || ret == -1
    ensures d != c && mem && old(c.v) > 0 ==> ret == 0
    ensures d != c && ret == 0 ==> old(c.v) > 0 && d.v == (old(a.v) + old(b.v)) % old(c.v)
    ensures d == c && ret == 0 ==> d.v == 0 && old(a.v) + old(b.v) > 0
    ensures d == c && mem ==> (ret == 0 <==> old(a.v) + old(b.v) > 0)
  {
    var rc := d.Add(a, b, mem);
    if rc == 0 {
      rc := d.Mod(d, c, mem);
    }
    ret := if rc != 0 then -1 else 0;
    if d == c && ret == 0 {
      DivModUnique(old(a.v) + old(b.v), old(a.v) + old(b.v), 1, 0);
    }
  }

  /** 3 + 5 and 3 * 5 modulo 7 are both 1, but not when the result goes to the modulus. */
  method ModulusOverwritten() returns (sum: int, product: int)
    ensures sum == 0 != (3 + 5) % 7 && product == 0 != (3 * 5) % 7
  {
    var a := new Mpi(3);
    var b := new Mpi(5);
    var c := new Mpi(7);
    var ret := AddMod(a, b, c, c, true);
    sum := c.v;
    var d := new Mpi(7);
    ret := MulMod(a, b, d, d, true);
    product := d.v;
  }

  // ----- Limbs -----

  const HALF: nat := U32   // what an unsigned int holds

  ghost predicate Limbs(limbs: seq<nat>, base: nat) {
    forall i :: 0 <= i < |limbs| ==> limbs[i] < base
  }

  /** The number that an array of limbs stands for, least significant limb first. */
  function Value(limbs: seq<nat>, base: nat): nat {
    if limbs == [] then 0 else limbs[0] + base * Value(limbs[1..], base)
  }

  ghost predicate AllZero(limbs: seq<nat>) {
    forall i :: 0 <= i < |limbs| ==> limbs[i] == 0
  }

  lemma {:induction false} ValueZero(limbs: seq<nat>, base: nat)
    requires base > 0
    ensures Value(limbs, base) == 0 <==> AllZero(limbs)
  {
    if limbs != [] {
      ValueZero(limbs[1..], base);
      var r := Value(limbs[1..], base);
      assert base * r == 0 <==> r == 0;
      if AllZero(limbs[1..]) && limbs[0] == 0 {
        assert forall i :: 0 < i < |limbs| ==> limbs[i] == limbs[1..][i - 1];
      }
    }
  }

  lemma ValueOne(limbs: seq<nat>, base: nat)
    requires base > 1
    ensures Value(limbs, base) == 1 <==> |limbs| > 0 && limbs[0] == 1 && AllZero(limbs[1..])
  {
    if limbs != [] {
      ValueZero(limbs[1..], base);
      var r := Value(limbs[1..], base);
      assert r >= 1 ==> base * r >= base;
    }
  }

  /** crypto_bignum_is_zero: the unsigned int accumulator sees 32 bits of every limb. */
  method IsZero(limbs: seq<nat>) returns (r: int)
    ensures r == 0 || r == 1
    ensures r == 1 <==> forall i :: 0 <= i < |limbs| ==> limbs[i] % HALF == 0
  {
    var v: nat := 0;
    ConstTime.Pow2Word();
    for i := 0 to |limbs|
      invariant v < HALF
      invariant v == 0 <==> forall j :: 0 <= j < i ==> limbs[j] % HALF == 0
    {
      ConstTime.OrIsZero(v, limbs[i] % HALF, 32);
      ConstTime.BitwiseBound(ConstTime.Either, v, limbs[i] % HALF, 32);
      v := ConstTime.Or(v, limbs[i] % HALF);
    }
    r := if v == 0 then 1 else 0;
  }

  /** Digit-wise or of two limbs, as wide as they are. */
  function OrLimbs(a: nat, b: nat, bits: nat): nat {
    ConstTime.Bitwise(ConstTime.Either, a, b, bits)
  }

  /** crypto_bignum_is_one: here the accumulator is a whole limb. */
  method IsOne(limbs: seq<nat>, bits: nat) returns (r: int)
    requires Limbs(limbs, Pow2(bits))
    ensures r == 0 || r == 1
    ensures r == 1 <==> |limbs| > 0 && limbs[0] == 1 && AllZero(limbs[1..])
  {
    var v: nat := 0;
    var i := 1;
    while i < |limbs|
      invariant 1 <= i && v < Pow2(bits)
      invariant v == 0 <==> forall j :: 1 <= j < i && j < |limbs| ==> limbs[j] == 0
    {
      ConstTime.OrIsZero(v, limbs[i], bits);
      ConstTime.BitwiseBound(ConstTime.Either, v, limbs[i], bits);
      v := OrLimbs(v, limbs[i], bits);
      i := i + 1;
    }
    r := if |limbs| > 0 && limbs[0] == 1 && v == 0 then 1 else 0;
    assert |limbs| > 0 && v == 0 ==> AllZero(limbs[1..]);
    assert |limbs| > 0 && AllZero(limbs[1..]) ==> v == 0 by {
      assert |limbs| > 0 && AllZero(limbs[1..]) ==>
          forall j :: 1 <= j < |limbs| ==> limbs[j] == limbs[1..][j - 1] == 0;
    }
  }

  /** With 32-bit limbs crypto_bignum_is_zero is exact. */
  lemma IsZeroExact(limbs: seq<nat>)
    requires Limbs(limbs, HALF)
    ensures (forall i :: 0 <= i < |limbs| ==> limbs[i] % HALF == 0) <==> Value(limbs, HALF) == 0
  {
    ValueZero(limbs, HALF);
    assert forall i :: 0 <= i < |limbs| ==> limbs[i] % HALF == limbs[i];
  }

  /** With 64-bit limbs it is not: the number 2^32 is taken for zero. */
  lemma IsZeroMissesHighHalf()
    ensures Limbs([HALF], HALF * HALF) && Value([HALF], HALF * HALF) == HALF != 0
    ensures forall i :: 0 <= i < 1 ==> [HALF][i] % HALF == 0
  {
    assert [HALF][1..] == [];
  }

  // ----- The Legendre symbol -----

  lemma QuotientSmaller(v: int, base: int)
    requires v > 0 && base > 1
    ensures 0 <= v / base < v && 0 <= v % base < base && v == v % base + base * (v / base)
  {
    var q: int := v / base;
    if q < 0 { TimesMonotone(base, q, -1); }
    if q > 0 { TimesMonotone(q, 2, base); }
  }

  function ToLimbs(v: nat, base: nat): seq<nat>
    requires base > 1
    decreases v
  {
    if v == 0 then [] else QuotientSmaller(v, base); [v % base] + ToLimbs(v / base, base)
  }

  lemma {:induction false} ToLimbsValue(v: nat, base: nat)
    requires base > 1
    ensures Value(ToLimbs(v, base), base) == v && Limbs(ToLimbs(v, base), base)
    decreases v
  {
    if v > 0 {
      QuotientSmaller(v, base);
      ToLimbsValue(v / base, base);
      LimbsCons(v % base, ToLimbs(v / base, base), base);
    }
  }

  lemma LimbsCons(d: nat, rest: seq<nat>, base: nat)
    requires d < base && Limbs(rest, base)
    ensures Limbs([d] + rest, base) && Value([d] + rest, base) == d + base * Value(rest, base)
  {
    assert ([d] + rest)[1..] == rest;
  }

  function Zeros(n: nat): (r: seq<nat>)
    ensures |r| == n
  {
    seq(n, i => 0)
  }

  lemma {:induction false} ValuePadded(limbs: seq<nat>, n: nat, base: nat)
    requires base > 0
    ensures Value(limbs + Zeros(n), base) == Value(limbs, base)
  {
    if limbs == [] {
      ValueZero(limbs + Zeros(n), base);
    } else {
      assert (limbs + Zeros(n))[1..] == limbs[1..] + Zeros(n);
      ValuePadded(limbs[1..], n, base);
    }
  }

  /** No limb of `v` has anything in its low 32 bits. */
  ghost predicate Blind(v: nat, base: nat)
    requires base > 1
  {
    forall i :: 0 <= i < |ToLimbs(v, base)| ==> ToLimbs(v, base)[i] % HALF == 0
  }

  /** What is_zero and is_one say about any padded representation of `v`. */
  method Classify(v: nat, bits: nat, pad: nat) returns (one: int, zero: int)
    requires bits == 32 || bits == 64
    ensures one == if v == 1 then 1 else 0
    ensures Pow2(bits) > 1 && zero == if Blind(v, Pow2(bits)) then 1 else 0
  {
    Pow2Large(bits);
    var base := Pow2(bits);
    var digits := ToLimbs(v, base);
    ToLimbsValue(v, base);
    PaddedLimbs(digits, pad, base);
    var limbs := digits + Zeros(pad);
    ValueOne(limbs, base);
    one := IsOne(limbs, bits);
    zero := IsZero(limbs);
  }

  /** Leading zero limbs change nothing. */
  lemma PaddedLimbs(digits: seq<nat>, pad: nat, base: nat)
    requires base > 0 && Limbs(digits, base)
    ensures var limbs := digits + Zeros(pad);
            && Limbs(limbs, base) && Value(limbs, base) == Value(digits, base)
            && ((forall i :: 0 <= i < |limbs| ==> limbs[i] % HALF == 0)
                <==> forall i :: 0 <= i < |digits| ==> digits[i] % HALF == 0)
  {
    var limbs := digits + Zeros(pad);
    ValuePadded(digits, pad, base);
    assert forall i :: 0 <= i < |digits| ==> limbs[i] == digits[i];
    assert forall i :: |digits| <= i < |limbs| ==> limbs[i] == 0;
  }

  lemma Pow2Large(bits: nat)
    requires bits == 32 || bits == 64
    ensures Pow2(bits) >= HALF
    ensures bits == 32 ==> Pow2(bits) == HALF
  {
    ConstTime.Pow2Word();
    if bits == 64 { Pow2Grows(32, 32); }
  }

  lemma {:induction false} Pow2Grows(m: nat, n: nat)
    ensures Pow2(m + n) >= Pow2(m)
    decreases n
  {
    if n > 0 { Pow2Grows(m, n - 1); }
  }

  /** The Legendre symbol by its definition. */
  ghost function Symbol(a: int, p: int): int
    requires p > 0
  {
    if a % p == 0 then 0 else if NonzeroSquare(a, p) then 1 else -1
  }

  /** A number below 2^32 shows in the low half of its first limb. */
  lemma SmallNotBlind(v: nat, base: nat)
    requires base >= HALF && 0 < v < HALF
    ensures !Blind(v, base)
  {
    DivModUnique(v, base, 0, v);
    assert ToLimbs(v, base)[0] == v;
  }

  /** With 32-bit limbs every number but zero shows. */
  lemma NeverBlind(v: nat)
    requires v > 0
    ensures !Blind(v, HALF)
  {
    ToLimbsValue(v, HALF);
    IsZeroExact(ToLimbs(v, HALF));
  }

  /** The two mask selections of crypto_bignum_legendre. */
  method SelectResult(one: int, zero: int) returns (res: int)
    requires 0 <= one <= 1 && 0 <= zero <= 1
    ensures res == if zero == 1 then 0 else if one == 1 then 1 else -1
  {
    var r := ConstTime.ONES;   // (unsigned int)-1
    ConstTime.EqMaskCorrect(one, 1);
    var mask := ConstTime.EqMask(one, 1);
    ConstTime.SelectCorrect(mask, 1, r);
    r := ConstTime.Select(mask, 1, r);
    ConstTime.EqMaskCorrect(zero, 1);
    mask := ConstTime.EqMask(zero, 1);
    ConstTime.SelectCorrect(mask, 0, r);
    r := ConstTime.Select(mask, 0, r);
    res := Signed(r);
  }

  /** What the classification of a^((p-1)/2) gives. */
  lemma LegendreResult(a: int, p: int, base: nat)
    requires OddPrime(p) && base >= HALF
    ensures var v, symbol := Pow(a, (p - 1) / 2) % p, Symbol(a, p);
            (if Blind(v, base) then 0 else if v == 1 then 1 else -1)
            == if symbol == -1 && Blind(p - 1, base) then 0 else symbol
  {
    Euler(a, p);
    SmallNotBlind(1, base);
  }

  /** crypto_bignum_legendre, with limbs of `bits` bits and `pad` leading zero limbs in the
      intermediate result.  It returns the Legendre symbol of every `a` modulo an odd prime,
      except that a nonsquare gives 0 when no limb of p - 1 has anything in its low 32 bits,
      which 32-bit limbs rule out. */
  method Legendre(a: Mpi, p: Mpi, bits: nat, pad: nat, mem: bool) returns (res: int)
    requires bits == 32 || bits == 64
    ensures p.v <= 0 || p.v % 2 == 0 ==> res == -2
    ensures mem && p.v > 0 && p.v % 2 == 1 ==> res != -2
    ensures Pow2(bits) > 1
    ensures res != -2 && OddPrime(p.v) ==>
              (res == Symbol(a.v, p.v) <==>
               !(Symbol(a.v, p.v) == -1 && Blind(p.v - 1, Pow2(bits))))
    ensures res != -2 && OddPrime(p.v) && Symbol(a.v, p.v) == -1 && Blind(p.v - 1, Pow2(bits)) ==> res == 0
    ensures res != -2 && OddPrime(p.v) && bits == 32 ==> res == Symbol(a.v, p.v)
  {
    Pow2Large(bits);
    var ok, v := HalfPower(a, p, mem);
    if !ok {
      return -2;
    }
    var one, zero := Classify(v, bits, pad);
    res := SelectResult(one, zero);
    if OddPrime(p.v) {
      LegendreResult(a.v, p.v, Pow2(bits));
      if bits == 32 { NeverBlind(p.v - 1); }
    }
  }

  /** a^((p-1)/2) modulo p */
  method HalfPower(a: Mpi, p: Mpi, mem: bool) returns (ok: bool, v: int)
    ensures p.v <= 0 || p.v % 2 == 0 ==> !ok
    ensures mem && p.v > 0 && p.v % 2 == 1 ==> ok
    ensures ok ==> p.v > 0 && v == Pow(a.v, (p.v - 1) / 2) % p.v
  {
    var exp := new Mpi(0);
    var tmp := new Mpi(0);
    var rc := exp.AddInt(p, -1, mem);
    if rc == 0 {
      rc := exp.ShiftRight(1, mem);
    }
    if rc == 0 {
      rc := tmp.ExpMod(a, exp, p, mem);
    }
    assert Pow2(1) == 2;
    ok, v := rc == 0, tmp.v;
  }

  /** A prime p for which p - 1 is the single 64-bit limb 0x1200000000. */
  const BLIND_PRIME: int := 77309411329

  /** 7^9, and its squares modulo that prime. */
  const CHAIN: seq<int> := [
    40353607, 45467087722, 31370832198, 67107815348, 23511366293,
    60115560677, 65201436395, 47441187420, 53177244342, 17544599492,
    8324437825, 1575553182, 49291218360, 24572462942, 62841637924,
    24980054644, 8850745536, 72802055781, 33484994016, 45882479801,
    50092929257, 13082189566, 23291256926, 47311173491, 3104199,
    49684426805, 74366344828, 52519566389, 75579885615, 50631443320,
    30051001634, 23065111282, 77309411328]

  lemma Links0(i: nat)
    requires 0 <= i < 8
    ensures Primality.Square(CHAIN[i], BLIND_PRIME) == CHAIN[i + 1]
  {
    Primality.SquareIs(40353607, 21063, 45467087722, BLIND_PRIME);
    Primality.SquareIs(45467087722, 26740031134, 31370832198, BLIND_PRIME);
    Primality.SquareIs(31370832198, 12729745264, 67107815348, BLIND_PRIME);
    Primality.SquareIs(67107815348, 58252401659, 23511366293, BLIND_PRIME);
    Primality.SquareIs(23511366293, 7150285268, 60115560677, BLIND_PRIME);
    Primality.SquareIs(60115560677, 46745675246, 65201436395, BLIND_PRIME);
    Primality.SquareIs(65201436395, 54989777245, 47441187420, BLIND_PRIME);
    Primality.SquareIs(47441187420, 29112448602, 53177244342, BLIND_PRIME);
  }

  lemma Links1(i: nat)
    requires 8 <= i < 16
    ensures Primality.Square(CHAIN[i], BLIND_PRIME) == CHAIN[i + 1]
  {
    Primality.SquareIs(53177244342, 36577943968, 17544599492, BLIND_PRIME);
    Primality.SquareIs(17544599492, 3981571791, 8324437825, BLIND_PRIME);
    Primality.SquareIs(8324437825, 896349667, 1575553182, BLIND_PRIME);
    Primality.SquareIs(1575553182, 32109516, 49291218360, BLIND_PRIME);
    Primality.SquareIs(49291218360, 31427276002, 24572462942, BLIND_PRIME);
    Primality.SquareIs(24572462942, 7810251360, 62841637924, BLIND_PRIME);
    Primality.SquareIs(62841637924, 51081380508, 24980054644, BLIND_PRIME);
    Primality.SquareIs(24980054644, 8071502800, 8850745536, BLIND_PRIME);
  }

  lemma Links2(i: nat)
    requires 16 <= i < 24
    ensures Primality.Square(CHAIN[i], BLIND_PRIME) == CHAIN[i + 1]
  {
    Primality.SquareIs(8850745536, 1013275035, 72802055781, BLIND_PRIME);
    Primality.SquareIs(72802055781, 68557491705, 33484994016, BLIND_PRIME);
    Primality.SquareIs(33484994016, 14503341895, 45882479801, BLIND_PRIME);
    Primality.SquareIs(45882479801, 27230862536, 50092929257, BLIND_PRIME);
    Primality.SquareIs(50092929257, 32457905427, 13082189566, BLIND_PRIME);
    Primality.SquareIs(13082189566, 2213749670, 23291256926, BLIND_PRIME);
    Primality.SquareIs(23291256926, 7017032465, 47311173491, BLIND_PRIME);
    Primality.SquareIs(47311173491, 28953100258, 3104199, BLIND_PRIME);
  }

  lemma Links3(i: nat)
    requires 24 <= i < 32
    ensures Primality.Square(CHAIN[i], BLIND_PRIME) == CHAIN[i + 1]
  {
    Primality.SquareIs(3104199, 124, 49684426805, BLIND_PRIME);
    Primality.SquareIs(49684426805, 31930682493, 74366344828, BLIND_PRIME);
    Primality.SquareIs(74366344828, 71535316955, 52519566389, BLIND_PRIME);
    Primality.SquareIs(52519566389, 35678771914, 75579885615, BLIND_PRIME);
    Primality.SquareIs(75579885615, 73889051945, 50631443320, BLIND_PRIME);
    Primality.SquareIs(50631443320, 33159521054, 30051001634, BLIND_PRIME);
    Primality.SquareIs(30051001634, 11681148306, 23065111282, BLIND_PRIME);
    Primality.SquareIs(23065111282, 6881430724, 77309411328, BLIND_PRIME);
  }

  lemma BlindPrime()
    ensures OddPrime(BLIND_PRIME) && Symbol(7, BLIND_PRIME) == -1
  {
    forall i | 0 <= i < |CHAIN| - 1
      ensures Primality.Square(CHAIN[i], BLIND_PRIME) == CHAIN[i + 1]
    {
      if i < 8 { Links0(i); } else if i < 16 { Links1(i); } else if i < 24 { Links2(i); } else { Links3(i); }
    }
    assert Pow(7, 9) == CHAIN[0] by { assert Pow(7, 3) == 343; assert Pow(7, 6) == 117649; }
    ConstTime.Pow2Word();
    Primality.PrimeByChain(CHAIN, 32, BLIND_PRIME);
    Primality.NonsquareByChain(7, 9, CHAIN, 32, BLIND_PRIME);
  }

  /** A number below the base that is a multiple of 2^32 is one limb whose low half is zero. */
  lemma OneLimbBlind(v: nat, base: nat)
    requires 0 < v < base && base > 1 && v % HALF == 0
    ensures Blind(v, base)
  {
    DivModUnique(v, base, 0, v);
    assert ToLimbs(v, base) == [v];
  }

  /** With 64-bit limbs 7 is a nonsquare modulo that prime and gets the symbol 0. */
  method LegendreMisses() returns (res: int)
    ensures OddPrime(BLIND_PRIME) && Symbol(7, BLIND_PRIME) == -1 && res == 0
  {
    BlindPrime();
    Pow2Add(32, 32);
    ConstTime.Pow2Word();
    OneLimbBlind(BLIND_PRIME - 1, Pow2(64));
    var a := new Mpi(7);
    var p := new Mpi(BLIND_PRIME);
    res := Legendre(a, p, 64, 0, true);
  }

  /** The symbol is multiplicative. */
  lemma SymbolTimes(a: int, b: int, p: int)
    requires OddPrime(p)
    ensures Symbol(a * b, p) == Symbol(a, p) * Symbol(b, p)
  {
    if a % p == 0 {
      MultipleTimes(a, b, p);
    } else if b % p == 0 {
      MultipleTimes(b, a, p);
      assert b * a == a * b;
    } else {
      if (a * b) % p == 0 { NoZeroDivisors(a, b, p); }
      SymbolPower(a, p);
      SymbolPower(b, p);
      SymbolPower(a * b, p);
      var h := (p - 1) / 2;
      PowTimes(a, b, h);
      CongruentTimes(Pow(a, h), Symbol(a, p), Pow(b, h), Symbol(b, p), p);
      SignCongruent(Symbol(a * b, p), Symbol(a, p) * Symbol(b, p), p);
    }
  }

  lemma SymbolPower(a: int, p: int)
    requires OddPrime(p) && a % p != 0
    ensures Congruent(Pow(a, (p - 1) / 2), Symbol(a, p), p)
  {
    Euler(a, p);
    DivModUnique(1, p, 0, 1);
    DivModUnique(-1, p, -1, p - 1);
  }

  lemma SignCongruent(x: int, y: int, p: int)
    requires p >= 3 && Congruent(x, y, p)
    requires (x == 1 || x == -1) && (y == 1 || y == -1)
    ensures x == y
  {
    DivModUnique(1, p, 0, 1);
    DivModUnique(-1, p, -1, p - 1);
  }
}
