/**
  The powers of x modulo x^16 + x^12 + x^5 + 1: their period is 32767.

  The argument is about any family x(0), x(1), ... that multiplies like the powers of x, so that no
  power has to be computed step by step.
 */
module CrcOrder {

  import opened CrcTable
  import opened Arithmetic
  import opened NumberTheory

  // ----- Multiplication modulo the generator, on uint16_t -----

  function Steps4(acc: bv16, a: bv16, b3: bool, b2: bool, b1: bool, b0: bool): bv16 {
    Step(Step(Step(Step(acc, a, b3), a, b2), a, b1), a, b0)
  }

  /** Horner's scheme over the bits of c. */
  function Times(c: bv16, a: bv16): bv16 {
    var w3 := Steps4(0, a, c & 0x8000 != 0, c & 0x4000 != 0, c & 0x2000 != 0, c & 0x1000 != 0);
    var w2 := Steps4(w3, a, c & 0x0800 != 0, c & 0x0400 != 0, c & 0x0200 != 0, c & 0x0100 != 0);
    var w1 := Steps4(w2, a, c & 0x0080 != 0, c & 0x0040 != 0, c & 0x0020 != 0, c & 0x0010 != 0);
    Steps4(w1, a, c & 0x0008 != 0, c & 0x0004 != 0, c & 0x0002 != 0, c & 0x0001 != 0)
  }

  // ----- A family that multiplies like the powers of x -----

  /** Marks the sums that a proof uses, with the values of their powers. */
  predicate Sum(n: nat, m: nat, u: bv16, v: bv16) { true }

  ghost predicate Powers<T(!new)>(x: nat -> T, w: bv16 -> T) {
    && x(0) == w(1) && x(1) == w(2)
    && forall n: nat, m: nat, u: bv16, v: bv16 {:trigger Sum(n, m, u, v)} ::
         Sum(n, m, u, v) && x(n) == w(u) && x(m) == w(v) ==> x(n + m) == w(Times(u, v))
  }

  lemma Doubled1<T(!new)>(x: nat -> T, w: bv16 -> T)
    requires Powers(x, w)
    ensures x(2) == w(0x0004)
    ensures x(4) == w(0x0010)
    ensures x(8) == w(0x0100)
  {
    assert Sum(1, 1, 0x0002, 0x0002);
    assert Sum(2, 2, 0x0004, 0x0004);
    assert Sum(4, 4, 0x0010, 0x0010);
  }

  lemma Doubled8<T(!new)>(x: nat -> T, w: bv16 -> T)
    requires Powers(x, w) && x(8) == w(0x0100)
    ensures x(16) == w(0x1021)
    ensures x(32) == w(0x3730)
    ensures x(64) == w(0xb861)
  {
    assert Sum(8, 8, 0x0100, 0x0100);
    assert Sum(16, 16, 0x1021, 0x1021);
    assert Sum(32, 32, 0x3730, 0x3730);
  }

  lemma Doubled64<T(!new)>(x: nat -> T, w: bv16 -> T)
    requires Powers(x, w) && x(64) == w(0xb861)
    ensures x(128) == w(0xaefc)
    ensures x(256) == w(0x8e29)
    ensures x(512) == w(0x13fc)
  {
    assert Sum(64, 64, 0xb861, 0xb861);
    assert Sum(128, 128, 0xaefc, 0xaefc);
    assert Sum(256, 256, 0x8e29, 0x8e29);
  }

  lemma Doubled512<T(!new)>(x: nat -> T, w: bv16 -> T)
    requires Powers(x, w) && x(512) == w(0x13fc)
    ensures x(1024) == w(0x36c4)
    ensures x(2048) == w(0xfd50)
    ensures x(4096) == w(0xaa9e)
  {
    assert Sum(512, 512, 0x13fc, 0x13fc);
    assert Sum(1024, 1024, 0x36c4, 0x36c4);
    assert Sum(2048, 2048, 0xfd50, 0xfd50);
  }

  lemma Doubled4096<T(!new)>(x: nat -> T, w: bv16 -> T)
    requires Powers(x, w) && x(4096) == w(0xaa9e)
    ensures x(8192) == w(0x881c)
    ensures x(16384) == w(0x4458)
    ensures x(32768) == w(0x0002)
  {
    assert Sum(4096, 4096, 0xaa9e, 0xaa9e);
    assert Sum(8192, 8192, 0x881c, 0x881c);
    assert Sum(16384, 16384, 0x4458, 0x4458);
  }

  lemma Power208<T(!new)>(x: nat -> T, w: bv16 -> T)
    requires Powers(x, w) && x(128) == w(0xaefc) && x(64) == w(0xb861) && x(16) == w(0x1021)
    ensures x(208) == w(0x45b4)
  {
    assert Sum(128, 64, 0xaefc, 0xb861);
    assert Sum(192, 16, 0x650b, 0x1021);
  }

  lemma Power217<T(!new)>(x: nat -> T, w: bv16 -> T)
    requires Powers(x, w) && x(208) == w(0x45b4) && x(8) == w(0x0100)
    ensures x(217) == w(0x48e3)
  {
    assert Sum(208, 8, 0x45b4, 0x0100);
    assert Sum(216, 1, 0xac61, 0x0002);
  }

  lemma Power1057<T(!new)>(x: nat -> T, w: bv16 -> T)
    requires Powers(x, w) && x(1024) == w(0x36c4) && x(32) == w(0x3730)
    ensures x(1057) == w(0xf2af)
  {
    assert Sum(1024, 32, 0x36c4, 0x3730);
    assert Sum(1056, 1, 0xf147, 0x0002);
  }

  lemma Power4672<T(!new)>(x: nat -> T, w: bv16 -> T)
    requires Powers(x, w) && x(4096) == w(0xaa9e) && x(512) == w(0x13fc) && x(64) == w(0xb861)
    ensures x(4672) == w(0x0106)
  {
    assert Sum(4096, 512, 0xaa9e, 0x13fc);
    assert Sum(4608, 64, 0x54a0, 0xb861);
  }

  lemma Power4681<T(!new)>(x: nat -> T, w: bv16 -> T)
    requires Powers(x, w) && x(4672) == w(0x0106) && x(8) == w(0x0100)
    ensures x(4681) == w(0x2c42)
  {
    assert Sum(4672, 8, 0x0106, 0x0100);
    assert Sum(4680, 1, 0x1621, 0x0002);
  }

  lemma SomePowers<T(!new)>(x: nat -> T, w: bv16 -> T)
    requires Powers(x, w) && w(0x48e3) != w(1) && w(0xf2af) != w(1) && w(0x2c42) != w(1)
    ensures x(32768) == x(1)
    ensures x(217) != x(0) && x(1057) != x(0) && x(4681) != x(0)
  {
    Doubled1(x, w);
    Doubled8(x, w);
    Doubled64(x, w);
    Doubled512(x, w);
    Doubled4096(x, w);
    Power208(x, w);
    Power217(x, w);
    Power1057(x, w);
    Power4672(x, w);
    Power4681(x, w);
  }

  // ----- The period -----

  /** Marks the cancellations that a proof uses. */
  predicate Adds(n: nat, k: nat) { true }

  /** Powers can be cancelled. */
  ghost predicate Cancels<T(!new)>(x: nat -> T) {
    forall n: nat, k: nat {:trigger Adds(n, k)} :: Adds(n, k) ==> (x(n + k) == x(k) <==> x(n) == x(0))
  }

  lemma {:induction false} Repeats<T(!new)>(x: nat -> T, n: nat, k: nat)
    requires Cancels(x) && x(n) == x(0)
    ensures x(n * k) == x(0)
    decreases k
  {
    if k > 0 {
      Repeats(x, n, k - 1);
      assert Adds(n * (k - 1), n);
      assert n * (k - 1) + n == n * k;
    } else {
      assert n * 0 == 0;
    }
  }

  lemma Reduced<T(!new)>(x: nat -> T, o: nat, d: nat)
    requires Cancels(x) && o > 0 && x(o) == x(0)
    ensures x(d) == x(d % o)
  {
    var q, r := d / o, d % o;
    NatQuotient(d, o);
    Repeats(x, o, q);
    assert Adds(o * q, r);
  }

  lemma NatQuotient(d: nat, o: nat)
    requires o > 0
    ensures d / o >= 0 && d == o * (d / o) + d % o && 0 <= d % o < o
  {
    if d / o < 0 { TimesMonotone(o, d / o, -1); }
  }

  /** The least positive exponent whose power is 1 divides all of them. */
  lemma Least<T(!new)>(x: nat -> T, n: nat) returns (o: nat)
    requires Cancels(x) && n > 0 && x(n) == x(0)
    ensures 0 < o <= n && x(o) == x(0)
    ensures forall d: nat :: x(d) == x(0) <==> d % o == 0
  {
    o := 1;
    while x(o) != x(0)
      invariant 1 <= o <= n && forall i: nat :: 0 < i < o ==> x(i) != x(0)
      decreases n - o
    {
      o := o + 1;
    }
    forall d: nat
      ensures x(d) == x(0) <==> d % o == 0
    {
      Reduced(x, o, d);
      NatQuotient(d, o);
    }
  }

  lemma SmallPrimes()
    ensures IsPrime(7) && IsPrime(31)
  {}

  lemma Prime151()
    ensures IsPrime(151)
  {
    forall d | 1 < d < 151
      ensures 151 % d != 0
    {
      if 151 % d == 0 {
        var e := 151 / d;
        assert 151 == d * e;
        if d >= 13 {
          if e >= 12 { TimesMonotone(d, 12, e); }
          if e <= 0 { TimesMonotone(d, e, 0); }
        }
      }
    }
  }

  /** A proper divisor of 7 * 31 * 151 misses one of the primes. */
  lemma ProperDivisor(o: nat, k: nat)
    requires o > 0 && o * k == 32767 && k > 1
    ensures 4681 % o == 0 || 1057 % o == 0 || 217 % o == 0
  {
    SmallPrimes();
    Prime151();
    if k % 7 == 0 {
      Without(o, k, 7, 4681);
    } else if k % 31 == 0 {
      Without(o, k, 31, 1057);
    } else if k % 151 == 0 {
      Without(o, k, 151, 217);
    } else {
      var a := Takes(o, k, 7, 4681);
      var b := Takes(a, k, 31, 151);
      var c := Takes(b, k, 151, 1);
      TimesMonotone(k, 1, c);
    }
  }

  lemma Without(o: nat, k: nat, p: nat, rest: nat)
    requires o > 0 && p > 0 && o * k == p * rest && k % p == 0
    ensures rest % o == 0
  {
    var j := k / p;
    assert k == p * j;
    assert p * (o * j) == p * rest;
    assert p * (o * j - rest) == 0;
    assert o * j == rest;
    DivModUnique(rest, o, j, 0);
  }

  /** A prime that does not divide k divides the other factor. */
  lemma Takes(o: nat, k: nat, p: nat, rest: nat) returns (a: nat)
    requires IsPrime(p) && o > 0 && o * k == p * rest && k % p != 0
    ensures a > 0 && a * k == rest
  {
    DivModUnique(o * k, p, rest, 0);
    NoZeroDivisors(o, k, p);
    NatQuotient(o, p);
    a := o / p;
    assert o == p * a;
    assert p * (a * k) == p * rest;
    assert p * (a * k - rest) == 0;
  }

  /** The powers repeat after 32767 and not before. */
  lemma PeriodIs<T(!new)>(x: nat -> T)
    requires Cancels(x) && x(32768) == x(1)
    requires x(217) != x(0) && x(1057) != x(0) && x(4681) != x(0)
    ensures forall d: nat :: x(d) == x(0) <==> d % 32767 == 0
  {
    assert Adds(32767, 1);
    var o := Least(x, 32767);
    var k := 32767 / o;
    NatQuotient(32767, o);
    assert o * k == 32767;
    if k > 1 {
      ProperDivisor(o, k);
    } else {
      assert k == 1;
    }
  }
}
