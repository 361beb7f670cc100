/**
  CRC-16/XMODEM (framework/src/mmutils/mmcrc.c).

  The table-driven loop is proved equal to the one-bit-at-a-time shift register, and the
  shift register to schoolbook long division by x^16 + x^12 + x^5 + 1 (section 2 of
  ITU-T V.41).  The error-detection guarantees are proved about the register.
 */
module Crc {

  import CrcTable

  /** A uint16_t and a uint8_t by their bits, most significant first. */
  type Word = s: seq<bool> | |s| == 16 witness seq(16, i => false)
  type Octet = s: seq<bool> | |s| == 8 witness seq(8, i => false)

  const ZERO: Word := [
    false, false, false, false, false, false, false, false,
    false, false, false, false, false, false, false, false]

  /** The terms of x^16 + x^12 + x^5 + 1, highest power first. */
  predicate Generator(i: int) {
    i == 0 || i == 4 || i == 11 || i == 16
  }

  function Xor(xs: seq<bool>, ys: seq<bool>): (r: seq<bool>)
    requires |xs| == |ys|
    ensures |r| == |xs|
    ensures forall i :: 0 <= i < |xs| ==> r[i] == (xs[i] != ys[i])
  {
    seq(|xs|, i requires 0 <= i < |xs| => xs[i] != ys[i])
  }

  ghost predicate AllFalse(bits: seq<bool>) {
    forall i :: 0 <= i < |bits| ==> !bits[i]
  }

  // ----- The shift register: division one message bit at a time -----

  /** One message bit `b` enters the register; the generator is subtracted when the bit
      leaving the register differs from it. */
  function ShiftIn(c: Word, b: bool): (r: Word)
    ensures forall i :: 0 <= i < 16 ==>
                          r[i] == ((i < 15 && c[i + 1]) != ((c[0] != b) && Generator(i + 1)))
  {
    seq(16, i requires 0 <= i < 16 => (i < 15 && c[i + 1]) != ((c[0] != b) && Generator(i + 1)))
  }

  function Serial(c: Word, bits: seq<bool>): Word
    decreases |bits|
  {
    if bits == [] then c else Serial(ShiftIn(c, bits[0]), bits[1..])
  }

  function MessageBits(m: seq<Octet>): (r: seq<bool>)
    ensures |r| == 8 * |m|
  {
    if m == [] then [] else m[0] + MessageBits(m[1..])
  }

  /** The register after message part `xs` and then `ys`. */
  lemma {:induction false} SerialConcat(c: Word, xs: seq<bool>, ys: seq<bool>)
    ensures Serial(c, xs + ys) == Serial(Serial(c, xs), ys)
    decreases |xs|
  {
    if xs == [] {
      assert xs + ys == ys;
    } else {
      assert (xs + ys)[0] == xs[0] && (xs + ys)[1..] == xs[1..] + ys;
      SerialConcat(ShiftIn(c, xs[0]), xs[1..], ys);
    }
  }

  // ----- The lookup table -----

  function WordBit(w: CrcTable.Word, i: int): bool {
    if i == 0 then w.b15 else if i == 1 then w.b14 else if i == 2 then w.b13 else
    if i == 3 then w.b12 else if i == 4 then w.b11 else if i == 5 then w.b10 else
    if i == 6 then w.b9 else if i == 7 then w.b8 else if i == 8 then w.b7 else
    if i == 9 then w.b6 else if i == 10 then w.b5 else if i == 11 then w.b4 else
    if i == 12 then w.b3 else if i == 13 then w.b2 else if i == 14 then w.b1 else
    w.b0
  }

  function WordBits(w: CrcTable.Word): (r: Word)
    ensures forall i :: 0 <= i < 16 ==> r[i] == WordBit(w, i)
  {
    seq(16, i => WordBit(w, i))
  }

  function FromBits(c: Word): CrcTable.Word {
    CrcTable.Word(c[0], c[1], c[2], c[3], c[4], c[5], c[6], c[7],
                  c[8], c[9], c[10], c[11], c[12], c[13], c[14], c[15])
  }

  lemma WordBitAt(c: Word, i: nat)
    requires i < 16
    ensures WordBit(FromBits(c), i) == c[i]
  {
    if i < 4 { assert i == 0 || i == 1 || i == 2 || i == 3; }
    else if i < 8 { assert i == 4 || i == 5 || i == 6 || i == 7; }
    else if i < 12 { assert i == 8 || i == 9 || i == 10 || i == 11; }
    else { assert i == 12 || i == 13 || i == 14 || i == 15; }
  }

  lemma WordBitsFromBits(c: Word, w: CrcTable.Word)
    requires w == FromBits(c)
    ensures WordBits(w) == c
  {
    forall i: nat | i < 16
      ensures WordBits(w)[i] == c[i]
    {
      WordBitAt(c, i);
    }
  }

  lemma ShiftInBits(c: Word, b: bool)
    ensures CrcTable.ShiftIn(FromBits(c), b) == FromBits(ShiftIn(c, b))
  {}

  function Run<T>(next: (T, bool) -> T, w: T, bits: seq<bool>): T
    decreases |bits|
  {
    if bits == [] then w else Run(next, next(w, bits[0]), bits[1..])
  }

  lemma Run8<T>(next: (T, bool) -> T, w: T, i: Octet)
    ensures Run(next, w, i) ==
      next(next(next(next(next(next(next(next(w, i[0]), i[1]), i[2]), i[3]), i[4]), i[5]), i[6]), i[7])
  {
    assert i[1..][1..] == i[2..] && i[2..][1..] == i[3..] && i[3..][1..] == i[4..];
    assert i[4..][1..] == i[5..] && i[5..][1..] == i[6..] && i[6..][1..] == i[7..] && i[7..][1..] == [];
    var w1 := next(w, i[0]);
    var w2 := next(w1, i[1]);
    var w3 := next(w2, i[2]);
    var w4 := next(w3, i[3]);
    var w5 := next(w4, i[4]);
    var w6 := next(w5, i[5]);
    var w7 := next(w6, i[6]);
    calc {
      Run(next, w, i);
      Run(next, w1, i[1..]);
      Run(next, w2, i[2..]);
      Run(next, w3, i[3..]);
      Run(next, w4, i[4..]);
      Run(next, w5, i[5..]);
      Run(next, w6, i[6..]);
      Run(next, w7, i[7..]);
      next(w7, i[7]);
    }
  }

  /** Both forms of the register agree on all inputs, once they agree on single bits. */
  lemma {:induction false} Simulation(form: Word -> CrcTable.Word,
                                      next: (CrcTable.Word, bool) -> CrcTable.Word,
                                      c: Word, bits: seq<bool>)
    requires forall d: Word, b: bool :: next(form(d), b) == form(ShiftIn(d, b))
    ensures Run(next, form(c), bits) == form(Serial(c, bits))
    decreases |bits|
  {
    if bits != [] {
      Simulation(form, next, ShiftIn(c, bits[0]), bits[1..]);
    }
  }

  /** The table, read as the register's other form. */
  lemma TableEntryForm(i: Octet, w: CrcTable.Word, next: (CrcTable.Word, bool) -> CrcTable.Word)
    requires w == CrcTable.Step4(next, CrcTable.Step4(next, CrcTable.ZERO, i[0], i[1], i[2], i[3]),
                                 i[4], i[5], i[6], i[7])
    ensures w == Run(next, CrcTable.ZERO, i)
  {
    Run8(next, CrcTable.ZERO, i);
  }

  lemma ShiftInSimulates()
    ensures forall d: Word, b: bool :: CrcTable.ShiftIn(FromBits(d), b) == FromBits(ShiftIn(d, b))
  {
    forall d: Word, b: bool
      ensures CrcTable.ShiftIn(FromBits(d), b) == FromBits(ShiftIn(d, b))
    {
      ShiftInBits(d, b);
    }
  }

  lemma SerialForm(i: Octet)
    ensures Run(CrcTable.ShiftIn, CrcTable.ZERO, i) == FromBits(Serial(ZERO, i))
  {
    ShiftInSimulates();
    assert FromBits(ZERO) == CrcTable.ZERO;
    Simulation(FromBits, CrcTable.ShiftIn, ZERO, i);
  }

  /** crc16_xmodem_lookup_table[i]: what the register makes of the index itself. */
  method Lookup(i: Octet) returns (r: Word)
    ensures r == Serial(ZERO, i)
  {
    var v := CrcTable.Lookup(i[0], i[1], i[2], i[3], i[4], i[5], i[6], i[7]);
    var w := CrcTable.ToWord(v);
    TableEntryForm(i, w, CrcTable.ShiftIn);
    SerialForm(i);
    WordBitsFromBits(Serial(ZERO, i), w);
    r := WordBits(w);
  }

  // ----- mmcrc_16_xmodem -----

  function LeftBy(z: Word, n: nat): (r: Word)
    requires n <= 16
  {
    z[n..] + seq(n, i => false)
  }

  /** Part of the register can be taken out and added to the incoming bits instead. */
  lemma {:induction false} Absorb(y: Word, z: Word, bits: seq<bool>)
    requires |bits| <= 16
    ensures Serial(Xor(y, z), bits) == Xor(Serial(y, Xor(bits, z[..|bits|])), LeftBy(z, |bits|))
    decreases |bits|
  {
    if bits == [] {
      assert LeftBy(z, 0) == z;
    } else {
      var t := Xor(bits, z[..|bits|]);
      var z1 := LeftBy(z, 1);
      assert t[1..] == Xor(bits[1..], z1[..|bits| - 1]);
      assert ShiftIn(Xor(y, z), bits[0]) == Xor(ShiftIn(y, t[0]), z1);
      assert LeftBy(z1, |bits| - 1) == LeftBy(z, |bits|);
      Absorb(ShiftIn(y, t[0]), z1, bits[1..]);
    }
  }

  /** A whole octet enters the register by way of the octet on top of it. */
  lemma OctetStep(c: Word, d: Octet)
    ensures Serial(c, d) == Xor(Serial(ZERO, Xor(c[..8], d)), LeftBy(c, 8))
  {
    Absorb(ZERO, c, d);
    assert Xor(ZERO, c) == c;
    assert Xor(d, c[..8]) == Xor(c[..8], d);
  }

  /** mmcrc_16_xmodem: the table-driven loop agrees with the shift register. */
  method Crc16Xmodem(seed: Word, data: seq<Octet>) returns (crc: Word)
    ensures crc == Serial(seed, MessageBits(data))
  {
    crc := seed;
    var i := 0;
    assert data[0..] == data;
    while i < |data|
      invariant 0 <= i <= |data|
      invariant Serial(crc, MessageBits(data[i..])) == Serial(seed, MessageBits(data))
    {
      ghost var rest := data[i..];
      assert rest[0] == data[i] && rest[1..] == data[i + 1..];
      SerialConcat(crc, data[i], MessageBits(data[i + 1..]));
      OctetStep(crc, data[i]);
      var index := Xor(crc[..8], data[i]);   // (crc >> 8) ^ *d
      var entry := Lookup(index);
      crc := Xor(entry, LeftBy(crc, 8));
      i := i + 1;
    }
  }

  // ----- Chaining and the residue -----

  lemma {:induction false} MessageBitsConcat(m: seq<Octet>, n: seq<Octet>)
    ensures MessageBits(m + n) == MessageBits(m) + MessageBits(n)
  {
    if m == [] {
      assert m + n == n;
    } else {
      assert (m + n)[0] == m[0] && (m + n)[1..] == m[1..] + n;
      MessageBitsConcat(m[1..], n);
    }
  }

  /** Feeding a message in two calls is feeding it in one. */
  lemma Chaining(seed: Word, m: seq<Octet>, n: seq<Octet>)
    ensures Serial(Serial(seed, MessageBits(m)), MessageBits(n)) == Serial(seed, MessageBits(m + n))
  {
    MessageBitsConcat(m, n);
    SerialConcat(seed, MessageBits(m), MessageBits(n));
  }

  lemma ZeroShift(c: Word)
    ensures ShiftIn(c, false) == ZERO <==> c == ZERO
  {
    var d := ShiftIn(c, false);
    if d == ZERO {
      assert d[15] == c[0];
      forall i | 0 <= i < 16
        ensures !c[i]
      {
        if i > 0 { assert d[i - 1] == c[(i - 1) + 1]; }
      }
      assert c == ZERO;
    }
    assert c == ZERO ==> d == ZERO;
  }

  /** Zero bits leave a zero register at zero, and bring no other register there. */
  lemma {:induction false} ZeroBits(c: Word, bits: seq<bool>)
    requires AllFalse(bits)
    ensures Serial(c, bits) == ZERO <==> c == ZERO
    decreases |bits|
  {
    if bits != [] {
      ZeroShift(c);
      ZeroBits(ShiftIn(c, bits[0]), bits[1..]);
    }
  }

  /** A message followed by its own CRC, high octet first, leaves the register at zero. */
  lemma Residue(seed: Word, m: seq<Octet>)
    ensures var c := Serial(seed, MessageBits(m));
            Serial(seed, MessageBits(m + [c[..8], c[8..]])) == ZERO
  {
    var c := Serial(seed, MessageBits(m));
    var hi, lo := c[..8], c[8..];
    Chaining(seed, m, [hi, lo]);
    assert [hi, lo][1..] == [lo] && [lo][1..] == [];
    assert MessageBits([lo]) == lo;
    assert MessageBits([hi, lo]) == hi + lo;
    SerialConcat(c, hi, lo);
    OctetStep(c, hi);
    ZeroBits(ZERO, Xor(hi, hi));
    assert Xor(ZERO, LeftBy(c, 8)) == LeftBy(c, 8);
    OctetStep(LeftBy(c, 8), lo);
    assert LeftBy(c, 8)[..8] == lo;
    ZeroBits(ZERO, Xor(lo, lo));
    assert Xor(ZERO, LeftBy(LeftBy(c, 8), 8)) == ZERO;
  }

  // ----- Error detection -----

  /** Linearity: two registers differ by what the differences of their inputs leave. */
  lemma {:induction false} Linearity(c: Word, d: Word, xs: seq<bool>, ys: seq<bool>)
    requires |xs| == |ys|
    ensures Xor(Serial(c, xs), Serial(d, ys)) == Serial(Xor(c, d), Xor(xs, ys))
    decreases |xs|
  {
    if xs != [] {
      var e := Xor(xs, ys);
      assert e[1..] == Xor(xs[1..], ys[1..]);
      assert Xor(ShiftIn(c, xs[0]), ShiftIn(d, ys[0])) == ShiftIn(Xor(c, d), e[0]);
      Linearity(ShiftIn(c, xs[0]), ShiftIn(d, ys[0]), xs[1..], ys[1..]);
    }
  }

  lemma SelfXor(c: Word)
    ensures Xor(c, c) == ZERO
  {}

  lemma {:induction false} MessageBitsInjective(m: seq<Octet>, n: seq<Octet>)
    requires |m| == |n| && MessageBits(m) == MessageBits(n)
    ensures m == n
  {
    if m != [] {
      assert m[0] == MessageBits(m)[..8] && n[0] == MessageBits(n)[..8];
      assert MessageBits(m[1..]) == MessageBits(m)[8..];
      assert MessageBits(n[1..]) == MessageBits(n)[8..];
      MessageBitsInjective(m[1..], n[1..]);
      assert m == [m[0]] + m[1..] && n == [n[0]] + n[1..];
    }
  }

  lemma EmptiedBefore(c: Word, b: bool, k: nat)
    requires 1 <= k <= 16 && AllFalse(ShiftIn(c, b)[k - 1..])
    ensures AllFalse(c[k..])
  {
    var d := ShiftIn(c, b);
    assert forall i :: k - 1 <= i < 16 ==> d[i] == d[k - 1..][i - (k - 1)];
    assert d[15] == (c[0] != b);
    forall i | k <= i < 16
      ensures !c[i]
    {
      assert d[i - 1] == c[(i - 1) + 1];
    }
  }

  /** A register that k more bits bring to zero has nothing outside its top k bits. */
  lemma {:induction false} EmptiedBy(c: Word, bits: seq<bool>)
    requires |bits| <= 16 && Serial(c, bits) == ZERO
    ensures AllFalse(c[|bits|..])
    decreases |bits|
  {
    if bits == [] {
      assert c == ZERO;
    } else {
      var d := ShiftIn(c, bits[0]);
      EmptiedBy(d, bits[1..]);
      EmptiedBefore(c, bits[0], |bits|);
    }
  }

  lemma BurstOpens(burst: seq<bool>)
    requires |burst| <= 15
    ensures Serial(ShiftIn(ZERO, true), burst) != ZERO
  {
    var g := ShiftIn(ZERO, true);
    assert g[15] && g[|burst|..][15 - |burst|] == g[15];
    if Serial(g, burst) == ZERO {
      EmptiedBy(g, burst);
    }
  }

  lemma SplitAround(e: seq<bool>, first: nat, last: nat)
    requires first < last <= |e|
    ensures e == e[..first] + ([e[first]] + (e[first + 1..last] + e[last..]))
  {
    assert e[first + 1..] == e[first + 1..last] + e[last..];
    assert e[first..] == [e[first]] + e[first + 1..];
  }

  /** The first difference, 15 more bits at most, then nothing: the register is not zero. */
  lemma BurstRegister(e: seq<bool>, first: nat)
    requires first < |e| && AllFalse(e[..first]) && e[first]
    requires forall j :: first + 16 <= j < |e| ==> !e[j]
    ensures Serial(ZERO, e) != ZERO
  {
    var last := if first + 16 <= |e| then first + 16 else |e|;
    var before, burst, after := e[..first], e[first + 1..last], e[last..];
    var g := ShiftIn(ZERO, true);
    SplitAround(e, first, last);
    SerialConcat(ZERO, before, [true] + (burst + after));
    ZeroBits(ZERO, before);
    assert ([true] + (burst + after))[1..] == burst + after;
    SerialConcat(g, burst, after);
    ZeroBits(Serial(g, burst), after);
    BurstOpens(burst);
  }

  lemma FirstTrue(e: seq<bool>) returns (k: nat)
    requires !AllFalse(e)
    ensures k < |e| && e[k] && AllFalse(e[..k])
  {
    k := 0;
    while !e[k]
      invariant k < |e| && AllFalse(e[..k])
      decreases |e| - k
    {
      assert k + 1 == |e| ==> AllFalse(e);
      k := k + 1;
    }
  }

  /** Two messages that differ, and only within 16 consecutive bits, have different CRCs. */
  lemma BurstDetected(seed: Word, m: seq<Octet>, n: seq<Octet>, start: nat)
    requires |m| == |n| && m != n
    requires forall j :: 0 <= j < 8 * |m| && !(start <= j < start + 16) ==>
                           MessageBits(m)[j] == MessageBits(n)[j]
    ensures Serial(seed, MessageBits(m)) != Serial(seed, MessageBits(n))
  {
    var xs, ys := MessageBits(m), MessageBits(n);
    var e := Xor(xs, ys);
    if AllFalse(e) {
      forall j | 0 <= j < |xs| ensures xs[j] == ys[j] { assert !e[j]; }
      assert xs == ys;
      MessageBitsInjective(m, n);
      assert false;
    }
    var first := FirstTrue(e);
    BurstRegister(e, first);
    Linearity(seed, seed, xs, ys);
    SelfXor(seed);
    SelfXor(Serial(seed, xs));
  }

  /** The number of bits set. */
  function Weight(bits: seq<bool>): nat {
    if bits == [] then 0 else (if bits[0] then 1 else 0) + Weight(bits[1..])
  }

  lemma {:induction false} WeightConcat(xs: seq<bool>, ys: seq<bool>)
    ensures Weight(xs + ys) == Weight(xs) + Weight(ys)
  {
    if xs == [] {
      assert xs + ys == ys;
    } else {
      assert (xs + ys)[1..] == xs[1..] + ys;
      WeightConcat(xs[1..], ys);
    }
  }

  lemma XorRest(xs: seq<bool>, ys: seq<bool>)
    requires |xs| == |ys| && xs != []
    ensures Xor(xs, ys)[1..] == Xor(xs[1..], ys[1..]) && Xor(xs, ys)[0] == (xs[0] != ys[0])
  {}

  lemma WeightFirst(bits: seq<bool>)
    requires bits != []
    ensures Weight(bits) == Weight(bits[1..]) + if bits[0] then 1 else 0
  {}

  lemma {:induction false} WeightXor(xs: seq<bool>, ys: seq<bool>)
    requires |xs| == |ys|
    ensures Weight(Xor(xs, ys)) % 2 == (Weight(xs) + Weight(ys)) % 2
  {
    if xs != [] {
      XorRest(xs, ys);
      WeightXor(xs[1..], ys[1..]);
      WeightFirst(xs);
      WeightFirst(ys);
      WeightFirst(Xor(xs, ys));
    }
  }

  /** The generator without its leading term. */
  function GeneratorTail(): (r: Word) {
    seq(16, i => Generator(i + 1))
  }

  lemma GeneratorWeight()
    ensures Weight(GeneratorTail()) == 3
  {
    var g := GeneratorTail();
    assert g == g[..3] + ([true] + (g[4..10] + ([true] + (g[11..15] + [true]))));
    WeightConcat(g[..3], [true] + (g[4..10] + ([true] + (g[11..15] + [true]))));
    WeightConcat([true], g[4..10] + ([true] + (g[11..15] + [true])));
    WeightConcat(g[4..10], [true] + (g[11..15] + [true]));
    WeightConcat([true], g[11..15] + [true]);
    WeightConcat(g[11..15], [true]);
    assert [true][1..] == [];
    assert forall i :: 0 <= i < 6 ==> g[4..10][i] == g[i + 4];
    assert forall i :: 0 <= i < 4 ==> g[11..15][i] == g[i + 11];
    WeightZero(g[..3]);
    WeightZero(g[4..10]);
    WeightZero(g[11..15]);
  }

  lemma {:induction false} WeightZero(bits: seq<bool>)
    requires AllFalse(bits)
    ensures Weight(bits) == 0
  {
    if bits != [] { WeightZero(bits[1..]); }
  }

  lemma ShiftedWeight(c: Word)
    ensures Weight(c) == Weight(c[1..] + [false]) + if c[0] then 1 else 0
  {
    WeightConcat(c[1..], [false]);
    assert [false][1..] == [];
  }

  lemma FlippedWeight(s: Word)
    ensures Weight(Xor(s, GeneratorTail())) % 2 == (Weight(s) + 1) % 2
  {
    WeightXor(s, GeneratorTail());
    GeneratorWeight();
  }

  lemma ShiftInWeight(c: Word, b: bool)
    ensures Weight(ShiftIn(c, b)) % 2 == (Weight(c) + (if b then 1 else 0)) % 2
  {
    var s := c[1..] + [false];
    ShiftedWeight(c);
    if c[0] == b {
      assert ShiftIn(c, b) == s;
    } else {
      assert ShiftIn(c, b) == Xor(s, GeneratorTail());
      FlippedWeight(s);
    }
  }

  /** The generator has a factor x + 1, so the register keeps the parity of what entered. */
  lemma {:induction false} ParityKept(c: Word, bits: seq<bool>)
    ensures Weight(Serial(c, bits)) % 2 == (Weight(c) + Weight(bits)) % 2
    decreases |bits|
  {
    if bits != [] {
      ShiftInWeight(c, bits[0]);
      ParityKept(ShiftIn(c, bits[0]), bits[1..]);
    }
  }

  lemma OddFromEmpty(z: Word, bits: seq<bool>)
    requires AllFalse(z) && Weight(bits) % 2 == 1
    ensures Serial(z, bits) != z
  {
    ParityKept(z, bits);
    WeightZero(z);
  }

  lemma OddRegister(bits: seq<bool>)
    requires Weight(bits) % 2 == 1
    ensures Serial(ZERO, bits) != ZERO
  {
    OddFromEmpty(ZERO, bits);
  }

  /** Two messages that differ in an odd number of bits have different CRCs. */
  lemma OddErrorsDetected(seed: Word, m: seq<Octet>, n: seq<Octet>)
    requires |m| == |n|
    requires Weight(Xor(MessageBits(m), MessageBits(n))) % 2 == 1
    ensures Serial(seed, MessageBits(m)) != Serial(seed, MessageBits(n))
  {
    Linearity(seed, seed, MessageBits(m), MessageBits(n));
    SelfXor(seed);
    OddRegister(Xor(MessageBits(m), MessageBits(n)));
    SelfXor(Serial(seed, MessageBits(m)));
  }

  // ----- Long division of polynomials over GF(2) -----

  /** Subtract the generator from the front of `p` when `p` leads with a one; drop that term. */
  function Reduce(p: seq<bool>): (r: seq<bool>)
    requires |p| > 16
    ensures |r| == |p| - 1
  {
    seq(|p| - 1, i requires 0 <= i < |p| - 1 => p[i + 1] != (p[0] && i < 16 && Generator(i + 1)))
  }

  function Remainder(p: seq<bool>): seq<bool>
    decreases |p|
  {
    if |p| <= 16 then p else Remainder(Reduce(p))
  }

  /** The message times x^16, with the seed added to its first 16 coefficients. */
  function Dividend(c: Word, bits: seq<bool>): (r: seq<bool>)
    ensures |r| == |bits| + 16
  {
    seq(|bits| + 16, i requires 0 <= i < |bits| + 16 =>
      (i < |bits| && bits[i]) != (i < 16 && c[i]))
  }

  /** The register holds the remainder of the polynomial that entered it. */
  lemma {:induction false} SerialIsRemainder(c: Word, bits: seq<bool>)
    ensures Serial(c, bits) == Remainder(Dividend(c, bits))
    decreases |bits|
  {
    if bits == [] {
      assert Dividend(c, bits) == c;
    } else {
      var d := ShiftIn(c, bits[0]);
      forall i | 0 <= i < |bits| + 15
        ensures Reduce(Dividend(c, bits))[i] == Dividend(d, bits[1..])[i]
      {
      }
      assert Reduce(Dividend(c, bits)) == Dividend(d, bits[1..]);
      SerialIsRemainder(d, bits[1..]);
    }
  }
}
