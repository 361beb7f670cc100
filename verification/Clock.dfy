/**
  Comparing wrapping 32-bit times (framework/morselib/include/mmosal.h).
 */
module Clock {

  import opened Words

  /** a - b in uint32_t arithmetic. */
  function Minus(a: nat, b: nat): nat {
    (a - b) % U32
  }

  /** mmosal_time_lt */
  predicate TimeLt(a: nat, b: nat) {
    Signed(Minus(a, b)) < 0
  }

  /** mmosal_time_le, and mmosal_time_has_passed with the current time for `b` */
  predicate TimeLe(a: nat, b: nat) {
    Signed(Minus(a, b)) <= 0
  }

  /** mmosal_time_max */
  function TimeMax(a: nat, b: nat): nat {
    if TimeLt(a, b) then b else a
  }

  /** The register that holds the instant `t`. */
  function Ticks(t: nat): nat {
    t % U32
  }

  /** Only the distance of the instants matters. */
  lemma DistanceKept(s: nat, t: nat)
    ensures Minus(Ticks(s), Ticks(t)) == (s - t) % U32
  {
    var k := s / U32 - t / U32;
    var r := (Ticks(s) - Ticks(t)) % U32;
    var q := (Ticks(s) - Ticks(t)) / U32;
    assert s - t == (k + q) * U32 + r;
    WrapIs(s - t, k + q, r);
  }

  /** For instants less than 2^32 apart, time_lt gives their true order exactly when the first
      is at most 2^31 before and less than 2^31 after the second. */
  lemma LtIff(s: nat, t: nat)
    requires -U32 < s - t < U32
    ensures (TimeLt(Ticks(s), Ticks(t)) <==> s < t) <==> -I32 <= s - t < I32
  {
    DistanceKept(s, t);
    if s >= t { WrapIs(s - t, 0, s - t); } else { WrapIs(s - t, -1, s - t + U32); }
  }

  /** Less than 2^31 apart, all the comparisons are right, across any number of wraps. */
  lemma TimesOrdered(s: nat, t: nat)
    requires -I32 < s - t < I32
    ensures TimeLt(Ticks(s), Ticks(t)) <==> s < t
    ensures TimeLe(Ticks(s), Ticks(t)) <==> s <= t
    ensures TimeMax(Ticks(s), Ticks(t)) == Ticks(if s < t then t else s)
  {
    LtIff(s, t);
    DistanceKept(s, t);
    if s >= t { WrapIs(s - t, 0, s - t); } else { WrapIs(s - t, -1, s - t + U32); }
  }

  /** At a distance of exactly 2^31 each time is before the other. */
  lemma HalfTurn()
    ensures TimeLt(0, 0x8000_0000) && TimeLt(0x8000_0000, 0)
  {
    WrapIs(-I32, -1, I32);
  }
}
