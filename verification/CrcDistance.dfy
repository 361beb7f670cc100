/**
  Errors in two bits, and the Hamming distance of CRC-16/XMODEM.

  Two flipped bits go undetected exactly when their distance is a multiple of 32767, the period of x
  modulo the generator; with the parity of the register, every error of up to three bits in a message
  of up to 32767 bits is detected.
 */
module CrcDistance {

  import opened Crc
  import T = CrcTable
  import O = CrcOrder

  const ONE: Word := [
    false, false, false, false, false, false, false, false,
    false, false, false, false, false, false, false, true]

  function Zeros(n: nat): (r: seq<bool>)
    ensures |r| == n && AllFalse(r)
  {
    seq(n, i => false)
  }

  /** c times x^n. */
  function Shifted(c: Word, n: nat): Word {
    Serial(c, Zeros(n))
  }

  /** x^n modulo the generator. */
  function X(n: nat): Word {
    Shifted(ONE, n)
  }

  lemma ShiftedTwice(c: Word, m: nat, n: nat)
    ensures Shifted(Shifted(c, m), n) == Shifted(c, m + n)
  {
    SerialConcat(c, Zeros(m), Zeros(n));
    assert Zeros(m) + Zeros(n) == Zeros(m + n);
  }

  lemma ShiftedOnce(c: Word)
    ensures Shifted(c, 1) == ShiftIn(c, false)
  {
    assert Zeros(1)[1..] == [];
  }

  lemma ShiftedXor(c: Word, d: Word, n: nat)
    ensures Shifted(Xor(c, d), n) == Xor(Shifted(c, n), Shifted(d, n))
  {
    Linearity(c, d, Zeros(n), Zeros(n));
    assert Xor(Zeros(n), Zeros(n)) == Zeros(n);
  }

  lemma XorZero(c: Word, d: Word)
    ensures Xor(c, d) == ZERO <==> c == d
  {
    if Xor(c, d) == ZERO {
      forall i | 0 <= i < 16 ensures c[i] == d[i] { assert Xor(c, d)[i] == ZERO[i]; }
      assert c == d;
    }
    SelfXor(c);
  }

  lemma ShiftedInjective(c: Word, d: Word, n: nat)
    ensures Shifted(c, n) == Shifted(d, n) <==> c == d
  {
    ShiftedXor(c, d, n);
    ZeroBits(Xor(c, d), Zeros(n));
    XorZero(c, d);
    XorZero(Shifted(c, n), Shifted(d, n));
  }

  // ----- Multiplication -----

  function MulStep(acc: Word, a: Word, b: bool): Word {
    if b then Xor(ShiftIn(acc, false), a) else ShiftIn(acc, false)
  }

  /** The product with a of the polynomial with these coefficients, by Horner's scheme. */
  function Mul(acc: Word, bits: seq<bool>, a: Word): Word
    decreases |bits|
  {
    if bits == [] then acc else Mul(MulStep(acc, a, bits[0]), bits[1..], a)
  }

  /** What a step leaves at position i. */
  lemma MulStepAt(acc: Word, a: Word, b: bool, i: nat)
    requires i < 16
    ensures MulStep(acc, a, b)[i] == (((i < 15 && acc[i + 1]) != (acc[0] && Generator(i + 1))) != (b && a[i]))
  {}

  lemma MulStepShifted(acc: Word, a: Word, b: bool, n: nat)
    ensures Shifted(MulStep(acc, a, b), n) == MulStep(Shifted(acc, n), Shifted(a, n), b)
  {
    ShiftedOnce(acc);
    ShiftedOnce(Shifted(acc, n));
    ShiftedTwice(acc, 1, n);
    ShiftedTwice(acc, n, 1);
    ShiftedXor(ShiftIn(acc, false), a, n);
  }

  lemma {:induction false} MulShifted(acc: Word, bits: seq<bool>, a: Word, n: nat)
    ensures Shifted(Mul(acc, bits, a), n) == Mul(Shifted(acc, n), bits, Shifted(a, n))
    decreases |bits|
  {
    if bits != [] {
      MulStepShifted(acc, a, bits[0], n);
      MulShifted(MulStep(acc, a, bits[0]), bits[1..], a, n);
    }
  }

  lemma LoadOne(k: nat, front: seq<bool>, b: bool)
    requires k > 0 && |front| + k == 16
    ensures MulStep(Zeros(k) + front, ONE, b) == Zeros(k - 1) + (front + [b])
  {
    var acc: Word := Zeros(k) + front;
    var r, want := MulStep(acc, ONE, b), Zeros(k - 1) + (front + [b]);
    forall i: nat | i < 16
      ensures r[i] == want[i]
    {
      MulStepAt(acc, ONE, b, i);
      assert ONE[i] == (i == 15);
    }
  }

  lemma LoadRest(front: seq<bool>, bits: seq<bool>)
    requires bits != []
    ensures front + [bits[0]] + bits[1..] == front + bits
  {}

  /** Bits enter an empty register from the right. */
  lemma {:induction false} MulLoads(front: seq<bool>, bits: seq<bool>)
    requires |front| + |bits| == 16
    ensures Mul(Zeros(|bits|) + front, bits, ONE) == front + bits
    decreases |bits|
  {
    if bits == [] {
      assert Zeros(0) + front == front + bits;
    } else {
      LoadOne(|bits|, front, bits[0]);
      MulLoads(front + [bits[0]], bits[1..]);
      LoadRest(front, bits);
    }
  }

  /** c times x^n is the product of c and x^n. */
  lemma ShiftedIsMul(c: Word, n: nat)
    ensures Shifted(c, n) == Mul(ZERO, c, X(n))
  {
    MulLoads([], c);
    assert Zeros(16) + [] == ZERO && [] + c == c;
    MulShifted(ZERO, c, ONE, n);
    ZeroBits(ZERO, Zeros(n));
  }

  lemma XSum(n: nat, m: nat)
    ensures X(n + m) == Mul(ZERO, X(n), X(m))
  {
    ShiftedTwice(ONE, n, m);
    ShiftedIsMul(X(n), m);
  }

  // ----- The same on uint16_t -----

  function W(v: bv16): Word {
    WordBits(T.ToWord(v))
  }

  ghost predicate Fields(c: Word, w: T.Word) {
    && c[0] == w.b15 && c[1] == w.b14 && c[2] == w.b13 && c[3] == w.b12
    && c[4] == w.b11 && c[5] == w.b10 && c[6] == w.b9 && c[7] == w.b8
    && c[8] == w.b7 && c[9] == w.b6 && c[10] == w.b5 && c[11] == w.b4
    && c[12] == w.b3 && c[13] == w.b2 && c[14] == w.b1 && c[15] == w.b0
  }

  lemma SameFields(c: Word, d: Word, w: T.Word)
    requires Fields(c, w) && Fields(d, w)
    ensures c == d
  {
    assert c[..8] == d[..8] && c[8..] == d[8..];
    assert c == c[..8] + c[8..] && d == d[..8] + d[8..];
  }

  lemma WordBitsFields(w: T.Word)
    ensures Fields(WordBits(w), w)
  {
    FieldsFrom(WordBits(w), w);
  }

  lemma FieldsFrom(c: Word, w: T.Word)
    requires forall i :: 0 <= i < 16 ==> c[i] == WordBit(w, i)
    ensures Fields(c, w)
  {
    Fields0(c, w);
    Fields4(c, w);
    Fields8(c, w);
    Fields12(c, w);
  }

  lemma Fields0(c: Word, w: T.Word)
    requires forall i :: 0 <= i < 16 ==> c[i] == WordBit(w, i)
    ensures c[0] == w.b15 && c[1] == w.b14 && c[2] == w.b13 && c[3] == w.b12
  {}

  lemma Fields4(c: Word, w: T.Word)
    requires forall i :: 0 <= i < 16 ==> c[i] == WordBit(w, i)
    ensures c[4] == w.b11 && c[5] == w.b10 && c[6] == w.b9 && c[7] == w.b8
  {}

  lemma Fields8(c: Word, w: T.Word)
    requires forall i :: 0 <= i < 16 ==> c[i] == WordBit(w, i)
    ensures c[8] == w.b7 && c[9] == w.b6 && c[10] == w.b5 && c[11] == w.b4
  {}

  lemma Fields12(c: Word, w: T.Word)
    requires forall i :: 0 <= i < 16 ==> c[i] == WordBit(w, i)
    ensures c[12] == w.b3 && c[13] == w.b2 && c[14] == w.b1 && c[15] == w.b0
  {}

  /** What a step leaves, field by field. */
  ghost predicate StepFields(p: Word, q: Word, b: bool, t: T.Word) {
    && t.b15 == (p[1] != (b && q[0]))
    && t.b14 == (p[2] != (b && q[1]))
    && t.b13 == (p[3] != (b && q[2]))
    && t.b12 == ((p[4] != p[0]) != (b && q[3]))
    && t.b11 == (p[5] != (b && q[4]))
    && t.b10 == (p[6] != (b && q[5]))
    && t.b9 == (p[7] != (b && q[6]))
    && t.b8 == (p[8] != (b && q[7]))
    && t.b7 == (p[9] != (b && q[8]))
    && t.b6 == (p[10] != (b && q[9]))
    && t.b5 == ((p[11] != p[0]) != (b && q[10]))
    && t.b4 == (p[12] != (b && q[11]))
    && t.b3 == (p[13] != (b && q[12]))
    && t.b2 == (p[14] != (b && q[13]))
    && t.b1 == (p[15] != (b && q[14]))
    && t.b0 == ((false != p[0]) != (b && q[15]))
  }

  lemma MulStepTop(p: Word, q: Word, b: bool)
    ensures var r := MulStep(p, q, b);
            && r[0] == (p[1] != (b && q[0]))
            && r[1] == (p[2] != (b && q[1]))
            && r[2] == (p[3] != (b && q[2]))
            && r[3] == ((p[4] != p[0]) != (b && q[3]))
  {
    MulStepAt(p, q, b, 0);
    MulStepAt(p, q, b, 1);
    MulStepAt(p, q, b, 2);
    MulStepAt(p, q, b, 3);
  }

  lemma MulStepUpper(p: Word, q: Word, b: bool)
    ensures var r := MulStep(p, q, b);
            && r[4] == (p[5] != (b && q[4]))
            && r[5] == (p[6] != (b && q[5]))
            && r[6] == (p[7] != (b && q[6]))
            && r[7] == (p[8] != (b && q[7]))
  {
    MulStepAt(p, q, b, 4);
    MulStepAt(p, q, b, 5);
    MulStepAt(p, q, b, 6);
    MulStepAt(p, q, b, 7);
  }

  lemma MulStepLower(p: Word, q: Word, b: bool)
    ensures var r := MulStep(p, q, b);
            && r[8] == (p[9] != (b && q[8]))
            && r[9] == (p[10] != (b && q[9]))
            && r[10] == ((p[11] != p[0]) != (b && q[10]))
            && r[11] == (p[12] != (b && q[11]))
  {
    MulStepAt(p, q, b, 8);
    MulStepAt(p, q, b, 9);
    MulStepAt(p, q, b, 10);
    MulStepAt(p, q, b, 11);
  }

  lemma MulStepBottom(p: Word, q: Word, b: bool)
    ensures var r := MulStep(p, q, b);
            && r[12] == (p[13] != (b && q[12]))
            && r[13] == (p[14] != (b && q[13]))
            && r[14] == (p[15] != (b && q[14]))
            && r[15] == ((false != p[0]) != (b && q[15]))
  {
    MulStepAt(p, q, b, 12);
    MulStepAt(p, q, b, 13);
    MulStepAt(p, q, b, 14);
    MulStepAt(p, q, b, 15);
  }

  lemma MulStepAll(p: Word, q: Word, b: bool, r: Word)
    requires r == MulStep(p, q, b)
    ensures r[0] == (p[1] != (b && q[0]))
    ensures r[1] == (p[2] != (b && q[1]))
    ensures r[2] == (p[3] != (b && q[2]))
    ensures r[3] == ((p[4] != p[0]) != (b && q[3]))
    ensures r[4] == (p[5] != (b && q[4]))
    ensures r[5] == (p[6] != (b && q[5]))
    ensures r[6] == (p[7] != (b && q[6]))
    ensures r[7] == (p[8] != (b && q[7]))
    ensures r[8] == (p[9] != (b && q[8]))
    ensures r[9] == (p[10] != (b && q[9]))
    ensures r[10] == ((p[11] != p[0]) != (b && q[10]))
    ensures r[11] == (p[12] != (b && q[11]))
    ensures r[12] == (p[13] != (b && q[12]))
    ensures r[13] == (p[14] != (b && q[13]))
    ensures r[14] == (p[15] != (b && q[14]))
    ensures r[15] == ((false != p[0]) != (b && q[15]))
  {
    MulStepTop(p, q, b);
    MulStepUpper(p, q, b);
    MulStepLower(p, q, b);
    MulStepBottom(p, q, b);
  }

  lemma StepFieldsForm(p: Word, q: Word, b: bool, t: T.Word)
    requires StepFields(p, q, b, t)
    ensures Fields(MulStep(p, q, b), t)
  {
    MulStepAll(p, q, b, MulStep(p, q, b));
  }

  lemma StepFieldsRight(acc: bv16, a: bv16, b: bool, p: Word, q: Word, t: T.Word)
    requires Fields(p, T.ToWord(acc)) && Fields(q, T.ToWord(a)) && T.Bits(acc, a, b, t)
    ensures StepFields(p, q, b, t)
  {}

  /** The step on uint16_t is the step on the register. */
  lemma StepForm(acc: bv16, a: bv16, b: bool, p: Word, q: Word, t: T.Word)
    requires p == W(acc) && q == W(a) && t == T.ToWord(T.Step(acc, a, b))
    ensures MulStep(p, q, b) == WordBits(t)
  {
    T.StepBits(acc, a, b, t);
    WordBitsFields(T.ToWord(acc));
    WordBitsFields(T.ToWord(a));
    WordBitsFields(t);
    StepFieldsRight(acc, a, b, p, q, t);
    StepFieldsForm(p, q, b, t);
    SameFields(MulStep(p, q, b), WordBits(t), t);
  }

  /** Horner's scheme with any step. */
  function Fold<S>(step: (S, S, bool) -> S, acc: S, bits: seq<bool>, a: S): S
    decreases |bits|
  {
    if bits == [] then acc else Fold(step, step(acc, a, bits[0]), bits[1..], a)
  }

  lemma {:induction false} MulForm<S(!new)>(step: (S, S, bool) -> S, form: S -> Word, acc: S, bits: seq<bool>, a: S)
    requires forall s: S, b: bool {:trigger step(s, a, b)} :: MulStep(form(s), form(a), b) == form(step(s, a, b))
    ensures Mul(form(acc), bits, form(a)) == form(Fold(step, acc, bits, a))
    decreases |bits|
  {
    if bits != [] { MulForm(step, form, step(acc, a, bits[0]), bits[1..], a); }
  }

  lemma {:induction false} FoldConcat<S>(step: (S, S, bool) -> S, acc: S, xs: seq<bool>, ys: seq<bool>, a: S)
    ensures Fold(step, acc, xs + ys, a) == Fold(step, Fold(step, acc, xs, a), ys, a)
    decreases |xs|
  {
    if xs == [] {
      assert xs + ys == ys;
    } else {
      assert (xs + ys)[0] == xs[0] && (xs + ys)[1..] == xs[1..] + ys;
      FoldConcat(step, step(acc, a, xs[0]), xs[1..], ys, a);
    }
  }

  lemma Fold4<S>(step: (S, S, bool) -> S, acc: S, bits: seq<bool>, a: S)
    requires |bits| == 4
    ensures Fold(step, acc, bits, a) == step(step(step(step(acc, a, bits[0]), a, bits[1]), a, bits[2]), a, bits[3])
  {
    assert bits[1..][1..] == bits[2..] && bits[2..][1..] == bits[3..] && bits[3..][1..] == [];
    var w1 := step(acc, a, bits[0]);
    var w2 := step(w1, a, bits[1]);
    var w3 := step(w2, a, bits[2]);
    calc {
      Fold(step, acc, bits, a);
      Fold(step, w1, bits[1..], a);
      Fold(step, w2, bits[2..], a);
      Fold(step, w3, bits[3..], a);
      step(w3, a, bits[3]);
    }
  }

  lemma Fold4At<S>(step: (S, S, bool) -> S, acc: S, c: Word, k: nat, a: S, r: S)
    requires k + 4 <= 16 && r == step(step(step(step(acc, a, c[k]), a, c[k + 1]), a, c[k + 2]), a, c[k + 3])
    ensures Fold(step, acc, c[k..k + 4], a) == r
  {
    Fold4(step, acc, c[k..k + 4], a);
  }

  lemma FoldSplit<S>(step: (S, S, bool) -> S, acc: S, c: Word, a: S)
    ensures Fold(step, acc, c, a)
         == Fold(step, Fold(step, Fold(step, Fold(step, acc, c[..4], a), c[4..8], a), c[8..12], a), c[12..], a)
  {
    assert c == c[..4] + (c[4..8] + (c[8..12] + c[12..]));
    var w := Fold(step, acc, c[..4], a);
    FoldConcat(step, acc, c[..4], c[4..8] + (c[8..12] + c[12..]), a);
    FoldConcat(step, w, c[4..8], c[8..12] + c[12..], a);
    FoldConcat(step, Fold(step, w, c[4..8], a), c[8..12], c[12..], a);
  }

  /** Four bits at a time. */
  lemma FoldFours<S>(step: (S, S, bool) -> S, acc: S, c: Word, a: S, w12: S, w8: S, w4: S, w0: S)
    requires w12 == step(step(step(step(acc, a, c[0]), a, c[1]), a, c[2]), a, c[3])
    requires w8 == step(step(step(step(w12, a, c[4]), a, c[5]), a, c[6]), a, c[7])
    requires w4 == step(step(step(step(w8, a, c[8]), a, c[9]), a, c[10]), a, c[11])
    requires w0 == step(step(step(step(w4, a, c[12]), a, c[13]), a, c[14]), a, c[15])
    ensures Fold(step, acc, c, a) == w0
  {
    Fold4At(step, acc, c, 0, a, w12);
    Fold4At(step, w12, c, 4, a, w8);
    Fold4At(step, w8, c, 8, a, w4);
    Fold4At(step, w4, c, 12, a, w0);
    FoldSplit(step, acc, c, a);
    assert c[0..4] == c[..4] && c[12..16] == c[12..];
  }

  /** The bits of a uint16_t, highest first. */
  lemma BitsOf(u: bv16, c: Word)
    requires c == W(u)
    ensures c[0] == (u & 0x8000 != 0) && c[1] == (u & 0x4000 != 0)
    ensures c[2] == (u & 0x2000 != 0) && c[3] == (u & 0x1000 != 0)
    ensures c[4] == (u & 0x0800 != 0) && c[5] == (u & 0x0400 != 0)
    ensures c[6] == (u & 0x0200 != 0) && c[7] == (u & 0x0100 != 0)
    ensures c[8] == (u & 0x0080 != 0) && c[9] == (u & 0x0040 != 0)
    ensures c[10] == (u & 0x0020 != 0) && c[11] == (u & 0x0010 != 0)
    ensures c[12] == (u & 0x0008 != 0) && c[13] == (u & 0x0004 != 0)
    ensures c[14] == (u & 0x0002 != 0) && c[15] == (u & 0x0001 != 0)
  {
    WordBitsFields(T.ToWord(u));
  }

  lemma TimesIs(u: bv16, v: bv16)
    ensures Fold(T.Step, 0, W(u), v) == O.Times(u, v)
  {
    var c := W(u);
    BitsOf(u, c);
    var w12 := O.Steps4(0, v, c[0], c[1], c[2], c[3]);
    var w8 := O.Steps4(w12, v, c[4], c[5], c[6], c[7]);
    var w4 := O.Steps4(w8, v, c[8], c[9], c[10], c[11]);
    var w0 := O.Steps4(w4, v, c[12], c[13], c[14], c[15]);
    FoldFours(T.Step, 0, c, v, w12, w8, w4, w0);
  }

  lemma ZeroForm()
    ensures W(0) == ZERO
  {}

  lemma TimesForm(u: bv16, v: bv16)
    ensures Mul(ZERO, W(u), W(v)) == W(O.Times(u, v))
  {
    forall s: bv16, b: bool
      ensures MulStep(W(s), W(v), b) == W(T.Step(s, v, b))
    {
      StepForm(s, v, b, W(s), W(v), T.ToWord(T.Step(s, v, b)));
    }
    ZeroForm();
    MulForm(T.Step, W, 0, W(u), v);
    TimesIs(u, v);
  }

  // ----- The period -----

  lemma XPowers()
    ensures O.Powers(X, W)
  {
    forall n: nat, m: nat, u: bv16, v: bv16 | X(n) == W(u) && X(m) == W(v)
      ensures X(n + m) == W(O.Times(u, v))
    {
      XSum(n, m);
      TimesForm(u, v);
    }
    FirstPowers();
  }

  lemma FirstPowers()
    ensures X(0) == W(1) && X(1) == W(2)
  {
    assert X(0) == ONE;
    ShiftedOnce(ONE);
  }

  lemma XCancels()
    ensures O.Cancels(X)
  {
    forall n: nat, k: nat
      ensures X(n + k) == X(k) <==> X(n) == X(0)
    {
      ShiftedTwice(ONE, n, k);
      ShiftedInjective(X(n), ONE, k);
      assert X(0) == ONE;
    }
  }

  lemma NotOne()
    ensures W(0x48e3) != W(1) && W(0xf2af) != W(1) && W(0x2c42) != W(1)
  {
    assert W(1)[1] != W(0x48e3)[1];
    assert W(1)[0] != W(0xf2af)[0];
    assert W(1)[2] != W(0x2c42)[2];
  }

  /** x^d is 1 modulo the generator exactly when d is a multiple of 32767. */
  lemma Period(d: nat)
    ensures X(d) == ONE <==> d % 32767 == 0
  {
    XPowers();
    XCancels();
    NotOne();
    O.SomePowers(X, W);
    O.PeriodIs(X);
    assert X(d) == X(0) <==> d % 32767 == 0;
    assert X(0) == ONE;
  }

  // ----- Two flipped bits -----

  lemma {:induction false} OneMoves(k: nat)
    requires k <= 15
    ensures X(k) == seq(16, i => i == 15 - k)
  {
    if k == 0 {
      assert X(0) == ONE;
    } else {
      OneMoves(k - 1);
      ShiftedTwice(ONE, k - 1, 1);
      ShiftedOnce(X(k - 1));
    }
  }

  /** The first bit to enter an empty register leaves x^16 there. */
  lemma FirstBit(k: nat)
    requires k == 16
    ensures ShiftIn(ZERO, true) == X(k)
  {
    OneMoves(k - 1);
    ShiftedTwice(ONE, k - 1, 1);
    ShiftedOnce(X(k - 1));
  }

  lemma ShiftInTrue(c: Word)
    ensures ShiftIn(c, true) == Xor(ShiftIn(c, false), ShiftIn(ZERO, true))
  {}

  lemma ReturnsIff(g: Word, k: nat, d: nat)
    requires g == X(k)
    ensures Shifted(g, d) == g <==> X(d) == ONE
  {
    ShiftedTwice(ONE, k, d);
    ShiftedTwice(ONE, d, k);
    ShiftedInjective(X(d), ONE, k);
  }

  lemma SecondBit(g: Word, d: nat)
    requires d > 0 && g == ShiftIn(ZERO, true)
    ensures ShiftIn(Shifted(g, d - 1), true) == Xor(Shifted(g, d), g)
  {
    var c := Shifted(g, d - 1);
    ShiftInTrue(c);
    ShiftedOnce(c);
    ShiftedTwice(g, d - 1, 1);
  }

  /** A bit, d - 1 zeros and another bit empty the register exactly when 32767 divides d. */
  lemma TwoBitsRegister(g: Word, d: nat)
    requires d > 0 && g == ShiftIn(ZERO, true)
    ensures ShiftIn(Shifted(g, d - 1), true) == ZERO <==> d % 32767 == 0
  {
    SecondBit(g, d);
    XorZero(Shifted(g, d), g);
    FirstBit(16);
    ReturnsIff(g, 16, d);
    Period(d);
  }

  lemma SplitTwo(e: seq<bool>, i: nat, j: nat)
    requires i < j < |e| && forall k :: 0 <= k < |e| ==> (e[k] <==> k == i || k == j)
    ensures e == Zeros(i) + ([true] + (Zeros(j - i - 1) + ([true] + Zeros(|e| - j - 1))))
  {}

  lemma TwoBits(e: seq<bool>, i: nat, j: nat)
    requires i < j < |e| && forall k :: 0 <= k < |e| ==> (e[k] <==> k == i || k == j)
    ensures Serial(ZERO, e) == ZERO <==> (j - i) % 32767 == 0
  {
    var gap, after := Zeros(j - i - 1), Zeros(|e| - j - 1);
    var g := ShiftIn(ZERO, true);
    SplitTwo(e, i, j);
    SerialConcat(ZERO, Zeros(i), [true] + (gap + ([true] + after)));
    ZeroBits(ZERO, Zeros(i));
    Enters(ZERO, true, gap + ([true] + after));
    SerialConcat(g, gap, [true] + after);
    Enters(Shifted(g, j - i - 1), true, after);
    ZeroBits(ShiftIn(Shifted(g, j - i - 1), true), after);
    TwoBitsRegister(g, j - i);
  }

  lemma Enters(c: Word, b: bool, rest: seq<bool>)
    ensures Serial(c, [b] + rest) == Serial(ShiftIn(c, b), rest)
  {
    assert ([b] + rest)[1..] == rest;
  }

  /** Two messages that differ in exactly the bits i and j have the same CRC if and only if 32767
      divides the distance. */
  lemma TwoErrorsUndetectedIff(seed: Word, m: seq<Octet>, n: seq<Octet>, i: nat, j: nat)
    requires |m| == |n| && i < j < 8 * |m|
    requires forall k :: 0 <= k < 8 * |m| ==> (MessageBits(m)[k] != MessageBits(n)[k] <==> k == i || k == j)
    ensures Serial(seed, MessageBits(m)) == Serial(seed, MessageBits(n)) <==> (j - i) % 32767 == 0
  {
    var xs, ys := MessageBits(m), MessageBits(n);
    Linearity(seed, seed, xs, ys);
    SelfXor(seed);
    XorZero(Serial(seed, xs), Serial(seed, ys));
    TwoBits(Xor(xs, ys), i, j);
  }

  // ----- Hamming distance -----

  lemma {:induction false} WeightNone(e: seq<bool>)
    requires Weight(e) == 0
    ensures AllFalse(e)
  {
    if e != [] {
      WeightNone(e[1..]);
      assert forall k :: 1 <= k < |e| ==> e[k] == e[1..][k - 1];
    }
  }

  lemma {:induction false} WeightOne(e: seq<bool>) returns (i: nat)
    requires Weight(e) == 1
    ensures i < |e| && forall k :: 0 <= k < |e| ==> (e[k] <==> k == i)
  {
    assert forall k :: 1 <= k < |e| ==> e[k] == e[1..][k - 1];
    if e[0] {
      WeightNone(e[1..]);
      i := 0;
    } else {
      var h := WeightOne(e[1..]);
      i := h + 1;
    }
  }

  lemma {:induction false} WeightTwo(e: seq<bool>) returns (i: nat, j: nat)
    requires Weight(e) == 2
    ensures i < j < |e| && forall k :: 0 <= k < |e| ==> (e[k] <==> k == i || k == j)
  {
    assert forall k :: 1 <= k < |e| ==> e[k] == e[1..][k - 1];
    if e[0] {
      var h := WeightOne(e[1..]);
      i, j := 0, h + 1;
    } else {
      var g, h := WeightTwo(e[1..]);
      i, j := g + 1, h + 1;
    }
  }

  /** Messages of up to 32767 bits that differ in one, two or three bits have different CRCs: the
      Hamming distance is at least 4. */
  lemma DistanceFour(seed: Word, m: seq<Octet>, n: seq<Octet>)
    requires |m| == |n| && 8 * |m| <= 32767
    requires 1 <= Weight(Xor(MessageBits(m), MessageBits(n))) <= 3
    ensures Serial(seed, MessageBits(m)) != Serial(seed, MessageBits(n))
  {
    var e := Xor(MessageBits(m), MessageBits(n));
    if Weight(e) == 2 {
      var i, j := WeightTwo(e);
      TwoErrorsUndetectedIff(seed, m, n, i, j);
    } else {
      OddErrorsDetected(seed, m, n);
    }
  }

  /** An error in the pattern of the generator, after `before` bits. */
  function GeneratorError(before: nat, after: nat): (e: seq<bool>)
    ensures |e| == before + 17 + after
  {
    Zeros(before) + ([true] + (GeneratorTail() + Zeros(after)))
  }

  lemma GeneratorEmpties(before: nat, after: nat)
    ensures Serial(ZERO, GeneratorError(before, after)) == ZERO
  {
    var g := GeneratorTail();
    assert ShiftIn(ZERO, true) == g;
    SerialConcat(ZERO, Zeros(before), [true] + (g + Zeros(after)));
    ZeroBits(ZERO, Zeros(before));
    Enters(ZERO, true, g + Zeros(after));
    SerialConcat(g, g, Zeros(after));
    SelfEmptied(g);
    ZeroBits(ZERO, Zeros(after));
  }

  /** Four errors can go undetected: two messages that differ in the pattern of the generator,
      wherever it is put, differ in four bits and have the same CRC, for every seed. */
  lemma GeneratorUndetected(seed: Word, m: seq<Octet>, n: seq<Octet>, before: nat, after: nat)
    requires |m| == |n| && Xor(MessageBits(m), MessageBits(n)) == GeneratorError(before, after)
    ensures Weight(Xor(MessageBits(m), MessageBits(n))) == 4
    ensures Serial(seed, MessageBits(m)) == Serial(seed, MessageBits(n))
  {
    GeneratorBitsWeight(before, after);
    GeneratorEmpties(before, after);
    Linearity(seed, seed, MessageBits(m), MessageBits(n));
    SelfXor(seed);
    XorZero(Serial(seed, MessageBits(m)), Serial(seed, MessageBits(n)));
  }

  /** There are such messages for every length from three octets on and every place. */
  lemma GeneratorErrorOccurs(m: seq<Octet>, before: nat) returns (n: seq<Octet>)
    requires before + 17 <= 8 * |m|
    ensures |n| == |m| && Xor(MessageBits(m), MessageBits(n)) == GeneratorError(before, 8 * |m| - before - 17)
  {
    var xs, e := MessageBits(m), GeneratorError(before, 8 * |m| - before - 17);
    n := FromMessageBits(Xor(xs, e), |m|);
    forall i | 0 <= i < |xs|
      ensures Xor(xs, MessageBits(n))[i] == e[i]
    {
    }
  }

  lemma {:induction false} FromMessageBits(bits: seq<bool>, k: nat) returns (m: seq<Octet>)
    requires |bits| == 8 * k
    ensures |m| == k && MessageBits(m) == bits
    decreases k
  {
    if k == 0 {
      m := [];
    } else {
      var rest := FromMessageBits(bits[8..], k - 1);
      var first: Octet := bits[..8];
      m := [first] + rest;
      assert m[1..] == rest;
      assert bits == first + bits[8..];
    }
  }

  lemma GeneratorBitsWeight(before: nat, after: nat)
    ensures Weight(GeneratorError(before, after)) == 4
  {
    var rest := GeneratorTail() + Zeros(after);
    WeightConcat(Zeros(before), [true] + rest);
    assert ([true] + rest)[1..] == rest;
    WeightConcat(GeneratorTail(), Zeros(after));
    WeightZero(Zeros(before));
    WeightZero(Zeros(after));
    GeneratorWeight();
  }

  /** A register is emptied by its own bits. */
  lemma SelfEmptied(c: Word)
    ensures Serial(c, c) == ZERO
  {
    Absorb(ZERO, c, c);
    assert Xor(ZERO, c) == c && c[..16] == c;
    SelfXor(c);
    ZeroBits(ZERO, ZERO);
    assert Xor(ZERO, LeftBy(c, 16)) == ZERO;
  }
}
