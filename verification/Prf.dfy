/**
  The key derivation loops of framework/src/hostap/crypto_mbedtls_mm.c: hmac_prf_bits
  (section 11.6.1.7.2 of IEEE 802.11ac-2013) and sha1_prf (section 8.5.1.1 of IEEE 802.11i).

  HMAC under the given key is any function from messages to strings of one length.
 */
module Prf {

  import opened Arithmetic
  import opened Words

  type Hmac = seq<byte> -> seq<byte>

  ghost predicate HasLength(hmac: Hmac, macLen: nat) {
    forall m: seq<byte> :: |hmac(m)| == macLen
  }

  // ----- Blocks and the octets made of them -----

  /** Block number n, counting from 0. */
  type Blocks = nat -> seq<byte>

  ghost predicate AllLong(block: Blocks, macLen: nat) {
    forall n: nat :: |block(n)| == macLen
  }

  /** The first n blocks, one after the other. */
  function Concat(block: Blocks, n: nat): seq<byte> {
    if n == 0 then [] else Concat(block, n - 1) + block(n - 1)
  }

  /** Octet j of the endless concatenation. */
  function Stream(block: Blocks, macLen: nat, j: nat): byte
    requires macLen > 0 && AllLong(block, macLen)
  {
    block(j / macLen)[j % macLen]
  }

  lemma OneMore(k: int, n: int)
    ensures k * n == k * (n - 1) + k
  {}

  lemma {:induction false} ConcatLength(block: Blocks, macLen: nat, n: nat)
    requires AllLong(block, macLen)
    ensures |Concat(block, n)| == macLen * n
  {
    if n > 0 {
      ConcatLength(block, macLen, n - 1);
      OneMore(macLen, n);
    }
  }

  lemma BlockPosition(macLen: nat, n: nat, k: nat)
    requires k < macLen
    ensures (macLen * n + k) / macLen == n && (macLen * n + k) % macLen == k
  {
    DivModUnique(macLen * n + k, macLen, n, k);
  }

  lemma {:induction false} ConcatAt(block: Blocks, macLen: nat, n: nat, j: nat)
    requires macLen > 0 && AllLong(block, macLen) && j < |Concat(block, n)|
    ensures Concat(block, n)[j] == Stream(block, macLen, j)
  {
    var before := Concat(block, n - 1);
    ConcatLength(block, macLen, n - 1);
    if j < |before| {
      ConcatAt(block, macLen, n - 1, j);
    } else {
      BlockPosition(macLen, n - 1, j - |before|);
    }
  }

  /** Copy the start of a hash into the buffer, after the octets already there. */
  method WriteHash(buf: array<byte>, pos: nat, hash: seq<byte>, k: nat)
    requires k <= |hash| && pos + k <= buf.Length
    modifies buf
    ensures buf[..pos + k] == old(buf[..pos]) + hash[..k]
    ensures buf[pos + k..] == old(buf[pos + k..])
  {
    for i := 0 to k
      invariant buf[..pos + i] == old(buf[..pos]) + hash[..i]
      invariant buf[pos + i..] == old(buf[pos + i..])
    {
      buf[pos + i] := hash[i];
      assert buf[..pos + i + 1] == buf[..pos + i] + [hash[i]];
      assert hash[..i + 1] == hash[..i] + [hash[i]];
    }
  }

  /** Store `k` octets of block n where the first n blocks end. */
  method StoreBlock(buf: array<byte>, pos: nat, hash: seq<byte>, k: nat, end: nat, ghost block: Blocks, ghost n: nat)
    requires hash == block(n) && k <= |hash| && pos + k <= end <= buf.Length
    requires buf[..pos] == Concat(block, n)
    modifies buf
    ensures pos + k <= |Concat(block, n + 1)| && buf[..pos + k] == Concat(block, n + 1)[..pos + k]
    ensures k == |hash| ==> buf[..pos + k] == Concat(block, n + 1)
    ensures buf[end..] == old(buf[end..])
  {
    WriteHash(buf, pos, hash, k);
    assert buf[end..] == buf[pos + k..][end - (pos + k)..];
    assert old(buf[end..]) == old(buf[pos + k..])[end - (pos + k)..];
  }

  /** An unsigned counter of the given modulus after n increments. */
  function Counted(modulus: nat, first: nat, n: nat): nat {
    if n == 0 then first else Bump(modulus, Counted(modulus, first, n - 1))
  }

  function Bump(modulus: nat, c: nat): nat {
    if c + 1 == modulus then 0 else c + 1
  }

  lemma BumpWraps(modulus: nat, v: nat)
    requires modulus > 0
    ensures Bump(modulus, v % modulus) == (v + 1) % modulus
  {
    var q, r := v / modulus, v % modulus;
    assert v == modulus * q + r;
    if r + 1 == modulus {
      OneMore(modulus, q + 1);
      DivModUnique(v + 1, modulus, q + 1, 0);
    } else {
      DivModUnique(v + 1, modulus, q, r + 1);
    }
  }

  lemma {:induction false} CountedWraps(modulus: nat, first: nat, n: nat)
    requires first < modulus
    ensures Counted(modulus, first, n) == (first + n) % modulus
  {
    if n == 0 {
      DivModUnique(first, modulus, 0, first);
    } else {
      CountedWraps(modulus, first, n - 1);
      BumpWraps(modulus, first + n - 1);
    }
  }

  /** The loop both functions run, up to the last whole block. The HMAC call for block n fails
      if n is in `fails`, and the first failure ends the loop. */
  method WholeBlocks(mac: nat -> seq<byte>, fails: set<nat>, macLen: nat, modulus: nat, first: nat,
                     buf: array<byte>, len: nat, ghost block: Blocks) returns (pos: nat, n: nat, ctr: nat)
    requires macLen > 0 && AllLong(block, macLen) && len <= buf.Length
    requires forall n: nat {:trigger block(n)} :: block(n) == mac(Counted(modulus, first, n))
    modifies buf
    ensures pos <= len && ctr == Counted(modulus, first, n)
    ensures forall i: nat :: i < n ==> i !in fails
    ensures len - pos < macLen || n in fails
    ensures buf[..pos] == Concat(block, n)
    ensures n > 0 ==> |Concat(block, n - 1)| < len
    ensures n == 0 ==> buf[..] == old(buf[..])
    ensures buf[len..] == old(buf[len..])
  {
    ctr := first;
    pos := 0;
    var left: nat := len;
    n := 0;
    while left >= macLen && n !in fails
      invariant pos + left == len && ctr == Counted(modulus, first, n)
      invariant forall i: nat :: i < n ==> i !in fails
      invariant buf[..pos] == Concat(block, n)
      invariant n > 0 ==> |Concat(block, n - 1)| < len
      invariant n == 0 ==> buf[..] == old(buf[..])
      invariant buf[len..] == old(buf[len..])
      decreases left
    {
      StoreBlock(buf, pos, mac(ctr), macLen, len, block, n);
      pos := pos + macLen;
      left := left - macLen;
      ctr := Bump(modulus, ctr);
      n := n + 1;
    }
  }

  /** The whole blocks and then part of one more; -1 if an HMAC call failed. `n` blocks were
      computed. */
  method Fill(mac: nat -> seq<byte>, fails: set<nat>, macLen: nat, modulus: nat, first: nat,
              buf: array<byte>, len: nat, ghost block: Blocks) returns (ret: int, n: nat)
    requires macLen > 0 && AllLong(block, macLen) && len <= buf.Length
    requires forall n: nat {:trigger block(n)} :: block(n) == mac(Counted(modulus, first, n))
    modifies buf
    ensures ret == 0 || ret == -1
    ensures forall i: nat :: i < n ==> i !in fails
    ensures ret != 0 ==> |Concat(block, n)| < len && n in fails
    ensures ret == 0 ==> len <= |Concat(block, n)| && buf[..len] == Concat(block, n)[..len]
    ensures ret == 0 && n > 0 ==> |Concat(block, n - 1)| < len
    ensures n == 0 ==> buf[..] == old(buf[..])
    ensures buf[len..] == old(buf[len..])
  {
    var pos, ctr;
    pos, n, ctr := WholeBlocks(mac, fails, macLen, modulus, first, buf, len, block);
    if pos == len {
      return 0, n;
    }
    if n in fails {
      return -1, n;
    }
    var k := len - pos;
    StoreBlock(buf, pos, mac(ctr), k, len, block, n);
    assert pos + k == len;
    return 0, n + 1;
  }

  /** The buffer up to `len` against the concatenation it was filled from. */
  lemma FilledMeans(s: seq<byte>, block: Blocks, macLen: nat, n: nat, len: nat)
    requires macLen > 0 && AllLong(block, macLen) && len <= |s|
    requires len <= |Concat(block, n)| && s[..len] == Concat(block, n)[..len]
    ensures forall j :: 0 <= j < len ==> s[j] == Stream(block, macLen, j)
  {
    forall j | 0 <= j < len
      ensures s[j] == Stream(block, macLen, j)
    {
      ConcatAt(block, macLen, n, j);
      assert s[j] == s[..len][j];
    }
  }

  // ----- hmac_prf_bits -----

  /** A uint16_t in little-endian order. */
  function Le16(n: nat): seq<byte> {
    [n % 256, n / 256 % 256]
  }

  function PrfMessage(tag: seq<byte>, data: seq<byte>, bits: nat, i: nat): seq<byte> {
    Le16(i % 65536) + tag + data + Le16(bits % 65536)
  }

  /** Ti = HMAC(K, i || label || data || L), the first being T1. */
  function PrfBlocks(hmac: Hmac, tag: seq<byte>, data: seq<byte>, bits: nat): (block: Blocks)
    ensures forall n: nat :: block(n) == hmac(PrfMessage(tag, data, bits, n + 1))
  {
    (n: nat) => hmac(PrfMessage(tag, data, bits, n + 1))
  }

  /** Octet j of T1 || T2 || ... */
  function PrfStream(hmac: Hmac, macLen: nat, tag: seq<byte>, data: seq<byte>, bits: nat, j: nat): byte
    requires macLen > 0 && HasLength(hmac, macLen)
  {
    Stream(PrfBlocks(hmac, tag, data, bits), macLen, j)
  }

  function Number(low: int, high: int): int {
    low + 256 * high
  }

  /** The message as its reader takes it apart: a 16-bit counter, the label, the data and the 16-bit
      length, both numbers low octet first. */
  ghost predicate IsPrfMessage(m: seq<byte>, tag: seq<byte>, data: seq<byte>, bits: nat, i: nat) {
    var t, d := |tag|, |data|;
    && |m| == t + d + 4
    && Number(m[0], m[1]) == i % 65536
    && m[2..2 + t] == tag
    && m[2 + t..2 + t + d] == data
    && Number(m[2 + t + d], m[3 + t + d]) == bits % 65536
  }

  lemma Le16Value(n: nat)
    requires n < 65536
    ensures Number(Le16(n)[0], Le16(n)[1]) == n
  {
    assert n / 256 < 256;
  }

  lemma FourPieces(a: seq<byte>, b: seq<byte>, c: seq<byte>, d: seq<byte>)
    requires |a| == 2 && |d| == 2
    ensures var m := a + b + c + d;
            && |m| == |b| + |c| + 4 && m[0] == a[0] && m[1] == a[1]
            && m[2..2 + |b|] == b && m[2 + |b|..2 + |b| + |c|] == c
            && m[2 + |b| + |c|] == d[0] && m[3 + |b| + |c|] == d[1]
  {}

  /** Every message has that form... */
  lemma PrfMessageForm(tag: seq<byte>, data: seq<byte>, bits: nat, i: nat)
    ensures IsPrfMessage(PrfMessage(tag, data, bits, i), tag, data, bits, i)
  {
    var a, d := Le16(i % 65536), Le16(bits % 65536);
    Le16Value(i % 65536);
    Le16Value(bits % 65536);
    FourPieces(a, tag, data, d);
  }

  lemma SameNumber(x: byte, y: byte, u: byte, v: byte)
    requires Number(x, y) == Number(u, v)
    ensures x == u && y == v
  {}

  /** ...and nothing else has. */
  lemma PrfMessageOnly(m: seq<byte>, tag: seq<byte>, data: seq<byte>, bits: nat, i: nat)
    requires IsPrfMessage(m, tag, data, bits, i)
    ensures m == PrfMessage(tag, data, bits, i)
  {
    var n := PrfMessage(tag, data, bits, i);
    PrfMessageForm(tag, data, bits, i);
    var k := 2 + |tag| + |data|;
    SameNumber(m[0], m[1], n[0], n[1]);
    SameNumber(m[k], m[k + 1], n[k], n[k + 1]);
    SameParts(m, n, |tag|, |data|);
  }

  lemma SameParts(m: seq<byte>, n: seq<byte>, t: nat, d: nat)
    requires |m| == |n| == t + d + 4 && m[0] == n[0] && m[1] == n[1]
    requires m[2..2 + t] == n[2..2 + t] && m[2 + t..2 + t + d] == n[2 + t..2 + t + d]
    requires m[2 + t + d] == n[2 + t + d] && m[3 + t + d] == n[3 + t + d]
    ensures m == n
  {
    forall i | 0 <= i < |m|
      ensures m[i] == n[i]
    {
      if 2 <= i < 2 + t {
        assert m[i] == m[2..2 + t][i - 2];
      } else if 2 + t <= i < 2 + t + d {
        assert m[i] == m[2 + t..2 + t + d][i - 2 - t];
      }
    }
  }

  /** The first block is the HMAC of the message with counter 1, and so on. */
  lemma PrfBlockOf(hmac: Hmac, tag: seq<byte>, data: seq<byte>, bits: nat, n: nat, m: seq<byte>)
    requires IsPrfMessage(m, tag, data, bits, n + 1)
    ensures PrfBlocks(hmac, tag, data, bits)(n) == hmac(m)
  {
    PrfMessageOnly(m, tag, data, bits, n + 1);
    PrfBlockIs(hmac, tag, data, bits, n, m);
  }

  lemma PrfBlockIs(hmac: Hmac, tag: seq<byte>, data: seq<byte>, bits: nat, n: nat, m: seq<byte>)
    requires m == PrfMessage(tag, data, bits, n + 1)
    ensures PrfBlocks(hmac, tag, data, bits)(n) == hmac(m)
  {}

  lemma StreamAt(block: Blocks, macLen: nat, n: nat, k: nat)
    requires macLen > 0 && AllLong(block, macLen) && k < macLen
    ensures Stream(block, macLen, macLen * n + k) == block(n)[k]
  {
    BlockPosition(macLen, n, k);
  }

  /** Octet k of block n of the stream is octet k of the HMAC of the message with counter n + 1. */
  lemma PrfStreamOf(hmac: Hmac, macLen: nat, tag: seq<byte>, data: seq<byte>, bits: nat, n: nat, k: nat, m: seq<byte>)
    requires HasLength(hmac, macLen) && k < macLen && IsPrfMessage(m, tag, data, bits, n + 1)
    ensures PrfStream(hmac, macLen, tag, data, bits, macLen * n + k) == hmac(m)[k]
  {
    PrfBlockOf(hmac, tag, data, bits, n, m);
    StreamAt(PrfBlocks(hmac, tag, data, bits), macLen, n, k);
  }

  function Octets(bits: nat): nat {
    (bits + 7) / 8
  }

  /** The least number of octets that hold the bits. */
  lemma OctetsLeast(bits: nat)
    ensures bits <= 8 * Octets(bits) < bits + 8
  {}

  /** x & (0xff << (8 - used)): the top `used` bits. */
  function TopBits(x: byte, used: nat): byte
    requires used <= 8
  {
    RemainderBound(x, Pow2(8 - used));
    x - x % Pow2(8 - used)
  }

  lemma RemainderBound(x: int, p: int)
    requires x >= 0 && p > 0
    ensures 0 <= x % p <= x && 0 <= x / p <= x
  {
    var q, r := x / p, x % p;
    assert x == p * q + r;
    if q < 0 { TimesMonotone(p, q, -1); }
    if q >= 0 { TimesMonotone(q, 1, p); }
  }

  /** Bit k of an octet, most significant first. */
  predicate Bit(x: byte, k: nat)
    requires k < 8
  {
    x / Pow2(7 - k) % 2 == 1
  }

  function Digit(x: byte, k: nat): int
    requires k < 8
  {
    if Bit(x, k) then 1 else 0
  }

  /** The value of the first k bits. */
  function Leading(x: byte, k: nat): int
    requires k <= 8
  {
    if k == 0 then 0 else 2 * Leading(x, k - 1) + Digit(x, k - 1)
  }

  lemma {:induction false} LeadingIs(x: byte, k: nat)
    requires k <= 8
    ensures Leading(x, k) == x / Pow2(8 - k)
  {
    if k == 0 {
      assert Pow2(4) == 16 && Pow2(8) == 256;
    } else {
      LeadingIs(x, k - 1);
      HalvedQuotient(x, Pow2(8 - k));
    }
  }

  lemma HalvedQuotient(x: int, p: int)
    requires p > 0
    ensures x / p == 2 * (x / (2 * p)) + x / p % 2
  {
    var q := x / p;
    var h, r := q / 2, q % 2;
    assert x == p * q + x % p && q == 2 * h + r;
    assert p * q == 2 * p * h + p * r;
    if r == 1 { assert p * r == p; }
    DivModUnique(x, 2 * p, h, p * r + x % p);
  }

  /** The eight bits, most significant first, are the binary digits of the octet. */
  lemma OctetOfBits(x: byte)
    ensures Leading(x, 8) == x
  {
    LeadingIs(x, 8);
  }

  /** What the output holds at position j. */
  function PrfByte(hmac: Hmac, macLen: nat, tag: seq<byte>, data: seq<byte>, bits: nat, j: nat): byte
    requires macLen > 0 && HasLength(hmac, macLen)
  {
    var x := PrfStream(hmac, macLen, tag, data, bits, j);
    if j == bits / 8 then TopBits(x, bits % 8) else x
  }

  /** hmac_prf_bits: exactly ceil(L/8) octets are written. */
  method HmacPrfBits(hmac: Hmac, macLen: nat, tag: seq<byte>, data: seq<byte>, buf: array<byte>, bits: nat,
                     setupOk: bool) returns (ret: int)
    requires macLen > 0 && HasLength(hmac, macLen) && Octets(bits) <= buf.Length
    modifies buf
    ensures ret == if setupOk then 0 else -1
    ensures !setupOk ==> buf[..] == old(buf[..])
    ensures setupOk ==> forall j :: 0 <= j < Octets(bits) ==> buf[j] == PrfByte(hmac, macLen, tag, data, bits, j)
    ensures buf[Octets(bits)..] == old(buf[Octets(bits)..])
  {
    if !setupOk {
      return -1;
    }
    FillWithStream(hmac, macLen, tag, data, buf, bits);
    ghost var filled := buf[..];
    if bits % 8 != 0 {
      MaskLast(buf, Octets(bits) - 1, bits % 8);
    }
    MaskedMeans(hmac, macLen, tag, data, bits, filled, buf[..]);
    ret := 0;
  }

  /** The loop of hmac_prf_bits, in which no block fails. */
  method FillWithStream(hmac: Hmac, macLen: nat, tag: seq<byte>, data: seq<byte>, buf: array<byte>, bits: nat)
    requires macLen > 0 && HasLength(hmac, macLen) && Octets(bits) <= buf.Length
    modifies buf
    ensures forall j :: 0 <= j < Octets(bits) ==> buf[..][j] == PrfStream(hmac, macLen, tag, data, bits, j)
    ensures buf[Octets(bits)..] == old(buf[Octets(bits)..])
  {
    ghost var block := PrfBlocks(hmac, tag, data, bits);
    forall n: nat ensures block(n) == PrfMac(hmac, tag, data, bits, Counted(65536, 1, n)) {
      PrfBlocksAre(hmac, tag, data, bits, n);
    }
    var octets := Octets(bits);
    var ret, n := Fill(ctr => PrfMac(hmac, tag, data, bits, ctr), {}, macLen, 65536, 1, buf, octets, block);
    FilledMeans(buf[..], block, macLen, n, octets);
  }

  /** The octets after the masking. */
  lemma MaskedMeans(hmac: Hmac, macLen: nat, tag: seq<byte>, data: seq<byte>, bits: nat, s: seq<byte>, t: seq<byte>)
    requires macLen > 0 && HasLength(hmac, macLen) && Octets(bits) <= |s|
    requires forall j :: 0 <= j < Octets(bits) ==> s[j] == PrfStream(hmac, macLen, tag, data, bits, j)
    requires t == if bits % 8 == 0 then s else s[bits / 8 := TopBits(s[bits / 8], bits % 8)]
    ensures forall j :: 0 <= j < Octets(bits) ==> t[j] == PrfByte(hmac, macLen, tag, data, bits, j)
    ensures t[Octets(bits)..] == s[Octets(bits)..]
  {}

  /** Clear the unused low bits of the last octet. */
  method MaskLast(buf: array<byte>, last: nat, used: nat)
    requires last < buf.Length && used <= 8
    modifies buf
    ensures buf[..] == old(buf[..])[last := TopBits(old(buf[last]), used)]
  {
    buf[last] := TopBits(buf[last], used);
  }

  /** The message for a uint16_t counter is fed in four pieces. */
  function PrfMac(hmac: Hmac, tag: seq<byte>, data: seq<byte>, bits: nat, ctr: nat): seq<byte> {
    hmac(Le16(ctr) + tag + data + Le16(bits % 65536))
  }

  lemma PrfBlocksAre(hmac: Hmac, tag: seq<byte>, data: seq<byte>, bits: nat, n: nat)
    ensures PrfBlocks(hmac, tag, data, bits)(n) == PrfMac(hmac, tag, data, bits, Counted(65536, 1, n))
  {
    CountedWraps(65536, 1, n);
  }

  // ----- Bits of the output -----

  /** Masking keeps the top bits and clears the rest. */
  lemma TopBitsBit(x: byte, used: nat, k: nat)
    requires used <= 8 && k < 8
    ensures Bit(TopBits(x, used), k) <==> k < used && Bit(x, k)
  {
    if k < used { KeptBit(x, used, k); } else { ClearedBit(x, used, k); }
  }

  lemma KeptBit(x: byte, used: nat, k: nat)
    requires k < used <= 8
    ensures Bit(TopBits(x, used), k) <==> Bit(x, k)
  {
    var m, c := Pow2(8 - used), Pow2(used - 1 - k);
    assert Pow2(7 - k) == m * c by { Pow2Add(8 - used, used - 1 - k); }
    ClearedAbove(x, m, c);
  }

  lemma ClearedBit(x: byte, used: nat, k: nat)
    requires used <= k < 8
    ensures !Bit(TopBits(x, used), k)
  {
    var p, c := Pow2(7 - k), Pow2(k - used);
    assert Pow2(8 - used) == 2 * p * c by { Pow2Add(8 - k, k - used); }
    ClearedBelow(x, p, c);
  }

  lemma Distributed(m: int, c: int, a: int, b: int)
    ensures m * (c * a + b) == m * c * a + m * b
  {
    TimesAssociates(m, c, a);
  }

  lemma RemainderFits(m: int, c: int, b: int, s: int)
    requires m > 0 && 0 <= b < c && 0 <= s < m
    ensures 0 <= m * b + s < m * c
  {
    TimesMonotone(m, b + 1, c);
    TimesMonotone(m, 0, b);
    assert m * (b + 1) == m * b + m;
  }

  /** The quotient by m * c, from the quotient by m. */
  lemma QuotientByProduct(m: int, c: int, u: int, s: int)
    requires m > 0 && c > 0 && 0 <= s < m
    ensures m * c > 0 && (m * u + s) / (m * c) == u / c
  {
    var a, b := u / c, u % c;
    assert u == c * a + b;
    Distributed(m, c, a, b);
    RemainderFits(m, c, b, s);
    DivModUnique(m * u + s, m * c, a, m * b + s);
  }

  /** Clearing below m does not change the quotient by a multiple of m. */
  lemma ClearedAbove(x: int, m: int, c: int)
    requires m > 0 && c > 0
    ensures m * c > 0 && (x - x % m) / (m * c) == x / (m * c)
  {
    var u, s := x / m, x % m;
    assert x == m * u + s;
    QuotientByProduct(m, c, u, s);
    QuotientByProduct(m, c, u, 0);
    assert x - s == m * u + 0;
  }

  /** Clearing below a multiple 2 * p * c of 2 * p leaves an even quotient by p. */
  lemma ClearedBelow(x: int, p: int, c: int)
    requires p > 0 && c > 0
    ensures 2 * p * c > 0 && (x - x % (2 * p * c)) / p % 2 == 0
  {
    var n := 2 * p * c;
    var q := x / n;
    var y := x - x % n;
    assert y == n * q;
    assert n * q == p * (2 * (c * q));
    DivModUnique(y, p, 2 * (c * q), 0);
  }

  lemma OctetOrder(k: nat, bits: nat)
    requires k < 8 * Octets(bits)
    ensures k / 8 == bits / 8 ==> (k < bits <==> k % 8 < bits % 8)
    ensures k / 8 != bits / 8 ==> k < bits
  {}

  /** Masking the octet in which L ends keeps the bits before L. */
  lemma MaskedBit(x: byte, bits: nat, k: nat)
    requires k < 8 * Octets(bits)
    ensures Bit(if k / 8 == bits / 8 then TopBits(x, bits % 8) else x, k % 8) <==> k < bits && Bit(x, k % 8)
  {
    OctetOrder(k, bits);
    if k / 8 == bits / 8 { TopBitsBit(x, bits % 8, k % 8); }
  }

  /** The first L bits are those of T1 || T2 || ..., and the rest of the last octet is zero. */
  lemma PrfBits(hmac: Hmac, macLen: nat, tag: seq<byte>, data: seq<byte>, bits: nat, k: nat)
    requires macLen > 0 && HasLength(hmac, macLen) && k < 8 * Octets(bits)
    ensures Bit(PrfByte(hmac, macLen, tag, data, bits, k / 8), k % 8) <==>
            k < bits && Bit(PrfStream(hmac, macLen, tag, data, bits, k / 8), k % 8)
  {
    MaskedBit(PrfStream(hmac, macLen, tag, data, bits, k / 8), bits, k);
  }

  /** For every L, the blocks of the output have different messages if and only if there are at
      most 65536 of them. */
  lemma PrfCountersDistinctIff(tag: seq<byte>, data: seq<byte>, bits: nat, macLen: nat)
    requires macLen > 0
    ensures (forall i: nat, j: nat :: 1 <= i < j && macLen * (j - 1) < Octets(bits) ==>
                                      PrfMessage(tag, data, bits, i) != PrfMessage(tag, data, bits, j))
            <==> Octets(bits) <= macLen * 65536
  {
    if Octets(bits) <= macLen * 65536 {
      forall i: nat, j: nat | 1 <= i < j && macLen * (j - 1) < Octets(bits)
        ensures PrfMessage(tag, data, bits, i) != PrfMessage(tag, data, bits, j)
      {
        Fewer(macLen, j - 1, 65536);
        MessagesDiffer(tag, data, bits, i, j);
      }
    } else {
      assert macLen * (65537 - 1) < Octets(bits);
      assert PrfMessage(tag, data, bits, 1) == PrfMessage(tag, data, bits, 65537);
    }
  }

  lemma Fewer(k: nat, x: nat, y: nat)
    requires k * x < k * y
    ensures x < y
  {
    if x >= y { TimesMonotone(k, y, x); }
  }

  /** In particular no counter value repeats for L up to 65535. */
  lemma PrfCountersDistinct(tag: seq<byte>, data: seq<byte>, bits: nat, macLen: nat, i: nat, j: nat)
    requires macLen > 0 && bits <= 65535
    requires 1 <= i < j && macLen * (j - 1) < Octets(bits)
    ensures PrfMessage(tag, data, bits, i) != PrfMessage(tag, data, bits, j)
  {
    TimesMonotone(65536, 1, macLen);
    PrfCountersDistinctIff(tag, data, bits, macLen);
  }

  lemma MessagesDiffer(tag: seq<byte>, data: seq<byte>, bits: nat, x: nat, y: nat)
    requires 1 <= x < y <= 65536
    ensures PrfMessage(tag, data, bits, x) != PrfMessage(tag, data, bits, y)
  {
    var a, z, d := Le16(x % 65536), Le16(y % 65536), Le16(bits % 65536);
    assert a[0] != z[0] || a[1] != z[1] by { Le16Differ(x % 65536, y % 65536); }
    StartsDiffer(a, z, tag, data, d);
  }

  lemma Le16Differ(x: nat, y: nat)
    requires x < 65536 && y < 65536 && x != y
    ensures Le16(x)[0] != Le16(y)[0] || Le16(x)[1] != Le16(y)[1]
  {
    assert 256 * (x / 256) + x % 256 == x && 256 * (y / 256) + y % 256 == y;
  }

  lemma StartsDiffer(a: seq<byte>, z: seq<byte>, b: seq<byte>, c: seq<byte>, d: seq<byte>)
    requires |a| == |z| == 2 && (a[0] != z[0] || a[1] != z[1])
    ensures a + b + c + d != z + b + c + d
  {
    assert forall i :: 0 <= i < 2 ==> (a + b + c + d)[i] == a[i] && (z + b + c + d)[i] == z[i];
  }

  // ----- sha1_prf -----

  const SHA1_MAC_LEN: nat := 20

  function Sha1Message(tag: seq<byte>, data: seq<byte>, i: nat): seq<byte> {
    tag + [0] + data + [i % 256]
  }

  function Sha1Blocks(hmac: Hmac, tag: seq<byte>, data: seq<byte>): (block: Blocks)
    ensures forall n: nat :: block(n) == hmac(Sha1Message(tag, data, n))
  {
    (n: nat) => hmac(Sha1Message(tag, data, n))
  }

  /** Octet j of the concatenation of HMAC-SHA1(K, label || 0 || data || i) for i = 0, 1, ... */
  function Sha1Stream(hmac: Hmac, tag: seq<byte>, data: seq<byte>, j: nat): byte
    requires HasLength(hmac, SHA1_MAC_LEN)
  {
    Stream(Sha1Blocks(hmac, tag, data), SHA1_MAC_LEN, j)
  }

  function Sha1Mac(hmac: Hmac, tag: seq<byte>, data: seq<byte>, counter: nat): seq<byte> {
    hmac(tag + [0] + data + [counter % 256])
  }

  ghost predicate NoNul(tag: seq<byte>) {
    forall k :: 0 <= k < |tag| ==> tag[k] != 0
  }

  lemma Sha1Pieces(tag: seq<byte>, data: seq<byte>, i: nat)
    ensures var m := Sha1Message(tag, data, i);
            && |m| == |tag| + |data| + 2 && m[..|tag|] == tag && m[|tag|] == 0
            && m[|tag| + 1..|tag| + 1 + |data|] == data && m[|tag| + 1 + |data|] == i % 256
  {}

  /** Label and data cannot be mistaken for each other: a label ends at its NUL, so the message
      determines the label, the data and the counter. */
  lemma Sha1MessageInjective(t: seq<byte>, d: seq<byte>, i: nat, u: seq<byte>, e: seq<byte>, j: nat)
    requires NoNul(t) && NoNul(u) && Sha1Message(t, d, i) == Sha1Message(u, e, j)
    ensures t == u && d == e && i % 256 == j % 256
  {
    Sha1Pieces(t, d, i);
    Sha1Pieces(u, e, j);
    LabelNotShorter(t, d, i, u, e, j);
    LabelNotShorter(u, e, j, t, d, i);
  }

  lemma LabelNotShorter(t: seq<byte>, d: seq<byte>, i: nat, u: seq<byte>, e: seq<byte>, j: nat)
    requires NoNul(u) && Sha1Message(t, d, i) == Sha1Message(u, e, j)
    ensures |t| >= |u|
  {
    Sha1Pieces(t, d, i);
    Sha1Pieces(u, e, j);
    var m := Sha1Message(u, e, j);
    assert forall k :: 0 <= k < |u| ==> m[k] == m[..|u|][k];
  }

  /** Octet j of the stream is in the HMAC of the label, a NUL, the data and the octet j div 20. */
  lemma Sha1StreamOf(hmac: Hmac, tag: seq<byte>, data: seq<byte>, j: nat, m: seq<byte>)
    requires HasLength(hmac, SHA1_MAC_LEN)
    requires |m| == |tag| + |data| + 2 && m[..|tag|] == tag && m[|tag|] == 0
    requires m[|tag| + 1..|tag| + 1 + |data|] == data && m[|tag| + 1 + |data|] == j / 20 % 256
    ensures Sha1Stream(hmac, tag, data, j) == hmac(m)[j % 20]
  {
    var n := Sha1Message(tag, data, j / 20);
    Sha1Pieces(tag, data, j / 20);
    forall k | 0 <= k < |m|
      ensures m[k] == n[k]
    {
      if k < |tag| {
        assert m[k] == m[..|tag|][k] && n[k] == n[..|tag|][k];
      } else if |tag| < k < |tag| + 1 + |data| {
        assert m[k] == m[|tag| + 1..|tag| + 1 + |data|][k - |tag| - 1];
        assert n[k] == n[|tag| + 1..|tag| + 1 + |data|][k - |tag| - 1];
      }
    }
    assert m == n;
  }

  /** The number of whole and partial blocks in `len` octets. */
  function Sha1BlockCount(len: nat): (n: nat)
    ensures len <= 20 * n < len + 20
  {
    (len + SHA1_MAC_LEN - 1) / SHA1_MAC_LEN
  }

  /** sha1_prf, where the HMAC call for block n fails if n is in `fails`: the call succeeds if and
      only if every block it needs does, and it stops at the first that fails. */
  method Sha1Prf(hmac: Hmac, tag: seq<byte>, data: seq<byte>, buf: array<byte>, len: nat, fails: set<nat>)
    returns (ret: int)
    requires HasLength(hmac, SHA1_MAC_LEN) && len <= buf.Length
    modifies buf
    ensures ret == 0 || ret == -1
    ensures ret == 0 <==> forall n: nat :: n < Sha1BlockCount(len) ==> n !in fails
    ensures ret == 0 ==> forall j :: 0 <= j < len ==> buf[j] == Sha1Stream(hmac, tag, data, j)
    ensures 0 in fails ==> buf[..] == old(buf[..])
    ensures buf[len..] == old(buf[len..])
  {
    ghost var block := Sha1Blocks(hmac, tag, data);
    forall n: nat ensures block(n) == Sha1Mac(hmac, tag, data, Counted(256, 0, n)) {
      Sha1BlocksAre(hmac, tag, data, n);
    }
    var n;
    ret, n := Fill(counter => Sha1Mac(hmac, tag, data, counter), fails, SHA1_MAC_LEN, 256, 0, buf, len, block);
    ConcatLength(block, SHA1_MAC_LEN, n);
    if ret == 0 {
      FilledMeans(buf[..], block, SHA1_MAC_LEN, n, len);
      if n > 0 { ConcatLength(block, SHA1_MAC_LEN, n - 1); }
    }
  }

  lemma Sha1BlocksAre(hmac: Hmac, tag: seq<byte>, data: seq<byte>, n: nat)
    ensures Sha1Blocks(hmac, tag, data)(n) == Sha1Mac(hmac, tag, data, Counted(256, 0, n))
  {
    CountedWraps(256, 0, n);
    SmallCounter(n);
  }

  lemma SmallCounter(n: nat)
    ensures 0 + n == n && n % 256 % 256 == n % 256
  {}

  /** The output of sha1_prf as a function of the length asked for. */
  function Sha1Output(hmac: Hmac, tag: seq<byte>, data: seq<byte>, len: nat): seq<byte>
    requires HasLength(hmac, SHA1_MAC_LEN)
  {
    seq(len, j requires 0 <= j < len => Sha1Stream(hmac, tag, data, j))
  }

  /** A shorter request is a prefix of a longer one; beyond 5120 octets the output repeats. */
  lemma Sha1PrefixAndPeriod(hmac: Hmac, tag: seq<byte>, data: seq<byte>, short: nat, long: nat)
    requires HasLength(hmac, SHA1_MAC_LEN) && short <= long
    ensures Sha1Output(hmac, tag, data, short) == Sha1Output(hmac, tag, data, long)[..short]
    ensures forall j :: 0 <= j && j + 5120 < long ==>
                          Sha1Output(hmac, tag, data, long)[j + 5120] == Sha1Output(hmac, tag, data, long)[j]
  {
    forall j | 0 <= j && j + 5120 < long
      ensures Sha1Stream(hmac, tag, data, j + 5120) == Sha1Stream(hmac, tag, data, j)
    {
      assert (j + 5120) / SHA1_MAC_LEN == j / SHA1_MAC_LEN + 256;
      assert (j / SHA1_MAC_LEN + 256) % 256 == j / SHA1_MAC_LEN % 256;
    }
  }

  /** All blocks of an output have different messages exactly when it is no longer than 5120
      octets. */
  lemma Sha1CountersDistinctIff(tag: seq<byte>, data: seq<byte>, len: nat)
    ensures (forall i: nat, j: nat :: i < j && SHA1_MAC_LEN * j < len ==>
                                      Sha1Message(tag, data, i) != Sha1Message(tag, data, j))
            <==> len <= 5120
  {
    if len <= 5120 {
      forall i: nat, j: nat | i < j && SHA1_MAC_LEN * j < len
        ensures Sha1Message(tag, data, i) != Sha1Message(tag, data, j)
      {
        var n := |tag| + 1 + |data|;
        assert Sha1Message(tag, data, i)[n] == i % 256 == i;
        assert Sha1Message(tag, data, j)[n] == j % 256 == j;
      }
    } else {
      assert SHA1_MAC_LEN * 256 < len && Sha1Message(tag, data, 0) == Sha1Message(tag, data, 256);
    }
  }
}
