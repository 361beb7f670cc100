/**
  Constant-time selection (framework/src/hostap/crypto_mbedtls_mm.c, lines 86 to 140).

  An unsigned int is a number below 2^32; the bitwise operators work on its binary digits.
 */
module ConstTime {

  import opened Arithmetic
  import opened Words

  const ONES: nat := 0xffff_ffff

  predicate Both(x: bool, y: bool) { x && y }
  predicate Either(x: bool, y: bool) { x || y }
  predicate Differ(x: bool, y: bool) { x != y }

  /** The low `n` digits of `a` and `b`, combined digit by digit. */
  function Bitwise(op: (bool, bool) -> bool, a: nat, b: nat, n: nat): nat
    decreases n
  {
    if n == 0 then 0
    else 2 * Bitwise(op, a / 2, b / 2, n - 1) + (if op(a % 2 == 1, b % 2 == 1) then 1 else 0)
  }

  function And(a: nat, b: nat): nat { Bitwise(Both, a, b, 32) }
  function Or(a: nat, b: nat): nat { Bitwise(Either, a, b, 32) }
  function Xor(a: nat, b: nat): nat { Bitwise(Differ, a, b, 32) }

  function Not(a: nat): nat
    requires a < U32
  {
    ONES - a
  }

  lemma Pow2Word()
    ensures Pow2(31) == I32 && Pow2(32) == U32
  {
    assert Pow2(8) == 256 by { assert Pow2(4) == 16; assert Pow2(6) == 64; }
    assert Pow2(16) == 65536 by {
      assert Pow2(10) == 1024; assert Pow2(12) == 4096; assert Pow2(14) == 16384;
    }
    assert Pow2(24) == 16777216 by {
      assert Pow2(18) == 262144; assert Pow2(20) == 1048576; assert Pow2(22) == 4194304;
    }
    assert Pow2(31) == I32 by {
      assert Pow2(26) == 67108864; assert Pow2(28) == 268435456; assert Pow2(30) == 1073741824;
    }
  }

  lemma {:induction false} BitwiseBound(op: (bool, bool) -> bool, a: nat, b: nat, n: nat)
    ensures Bitwise(op, a, b, n) < Pow2(n)
    decreases n
  {
    if n > 0 { BitwiseBound(op, a / 2, b / 2, n - 1); }
  }

  lemma {:induction false} AndZero(b: nat, n: nat)
    ensures Bitwise(Both, 0, b, n) == 0
    decreases n
  {
    if n > 0 { AndZero(b / 2, n - 1); }
  }

  lemma {:induction false} AndOnes(b: nat, n: nat)
    requires b < Pow2(n)
    ensures Bitwise(Both, Pow2(n) - 1, b, n) == b
    decreases n
  {
    if n > 0 {
      AndOnes(b / 2, n - 1);
      assert (Pow2(n) - 1) / 2 == Pow2(n - 1) - 1 && (Pow2(n) - 1) % 2 == 1;
    }
  }

  lemma {:induction false} OrZero(a: nat, n: nat)
    requires a < Pow2(n)
    ensures Bitwise(Either, a, 0, n) == a && Bitwise(Either, 0, a, n) == a
    decreases n
  {
    if n > 0 { OrZero(a / 2, n - 1); }
  }

  lemma {:induction false} OrIsZero(a: nat, b: nat, n: nat)
    requires a < Pow2(n) && b < Pow2(n)
    ensures Bitwise(Either, a, b, n) == 0 <==> a == 0 && b == 0
    decreases n
  {
    if n > 0 { OrIsZero(a / 2, b / 2, n - 1); }
  }

  lemma {:induction false} XorIsZero(a: nat, b: nat, n: nat)
    requires a < Pow2(n) && b < Pow2(n)
    ensures Bitwise(Differ, a, b, n) == 0 <==> a == b
    decreases n
  {
    if n > 0 { XorIsZero(a / 2, b / 2, n - 1); }
  }

  /** The top digit of a conjunction is set when both top digits are. */
  lemma {:induction false} AndTop(a: nat, b: nat, n: nat)
    requires n > 0 && a < Pow2(n) && b < Pow2(n)
    ensures Bitwise(Both, a, b, n) >= Pow2(n - 1) <==> a >= Pow2(n - 1) && b >= Pow2(n - 1)
    decreases n
  {
    if n == 1 {
      assert Bitwise(Both, a / 2, b / 2, 0) == 0;
    } else {
      AndTop(a / 2, b / 2, n - 1);
    }
  }

  // ----- The source's functions -----

  function FillMsb(v: nat): nat {
    v / I32 * ONES % U32
  }

  function IsZeroMask(v: nat): nat
    requires v < U32
  {
    FillMsb(And(Not(v), (v + U32 - 1) % U32))
  }

  function EqMask(a: nat, b: nat): nat {
    BitwiseBound(Differ, a, b, 32);
    Pow2Word();
    IsZeroMask(Xor(a, b))
  }

  function Select(mask: nat, whenTrue: nat, whenFalse: nat): nat
    requires mask < U32
  {
    Or(And(mask, whenTrue), And(Not(mask), whenFalse))
  }

  lemma FillMsbIs(v: nat)
    requires v < U32
    ensures FillMsb(v) == if v >= I32 then ONES else 0
  {
    assert v / I32 == if v >= I32 then 1 else 0;
  }

  lemma AndWord(a: nat, b: nat)
    requires a < U32 && b < U32
    ensures And(a, b) < U32 && (And(a, b) >= I32 <==> a >= I32 && b >= I32)
  {
    Pow2Word();
    AndTop(a, b, 32);
    BitwiseBound(Both, a, b, 32);
  }

  lemma MinusOne(v: nat)
    requires v < U32
    ensures (v + U32 - 1) % U32 == if v == 0 then ONES else v - 1
  {}

  /** const_time_is_zero: all ones for zero, zero for everything else. */
  lemma IsZeroMaskCorrect(v: nat)
    requires v < U32
    ensures IsZeroMask(v) == if v == 0 then ONES else 0
  {
    MinusOne(v);
    AndWord(Not(v), (v + U32 - 1) % U32);
    FillMsbIs(And(Not(v), (v + U32 - 1) % U32));
  }

  /** const_time_eq: all ones when equal, zero otherwise. */
  lemma EqMaskCorrect(a: nat, b: nat)
    requires a < U32 && b < U32
    ensures EqMask(a, b) == if a == b then ONES else 0
  {
    Pow2Word();
    XorIsZero(a, b, 32);
    BitwiseBound(Differ, a, b, 32);
    IsZeroMaskCorrect(Xor(a, b));
  }

  /** const_time_select: the first value under a mask of ones, the second under zero. */
  lemma SelectCorrect(mask: nat, whenTrue: nat, whenFalse: nat)
    requires mask == 0 || mask == ONES
    requires whenTrue < U32 && whenFalse < U32
    ensures Select(mask, whenTrue, whenFalse) == if mask == ONES then whenTrue else whenFalse
  {
    Pow2Word();
    AndZero(whenTrue, 32);
    AndZero(whenFalse, 32);
    AndOnes(whenTrue, 32);
    AndOnes(whenFalse, 32);
    OrZero(whenTrue, 32);
    OrZero(whenFalse, 32);
  }
}
