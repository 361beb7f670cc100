/**
  The failure records that survive a reset (framework/mm_shims/mmosal_shim_freertos_esp32.c).
 */
module FailureRing {

  import opened Words

  const MAX_RECORDS: int := 4
  const MAGIC: int := 0xabcd_1234

  /** FAST_MOD(x, MAX_FAILURE_RECORDS) on uint32_t: the low two bits. */
  function Slot(x: int): int {
    x % MAX_RECORDS
  }

  /** The last `n` elements. */
  function Last<T>(s: seq<T>, n: nat): seq<T> {
    if n <= |s| then s[|s| - n..] else s
  }

  function Min(a: int, b: int): int {
    if a < b then a else b
  }

  /** The records that a dump shows. */
  function Shown<T>(unseen: seq<T>): seq<T> {
    Last(unseen, Min(|unseen| % U32, MAX_RECORDS))
  }

  class Preserved<T> {
    var magic: int
    var failureCount: int
    var displayedCount: int
    const info: array<T>
    ghost var logged: seq<T>   // everything logged since the memory became valid
    ghost var shown: nat       // how much of it had been logged at the last dump

    /** Memory with a wrong magic number may hold anything. */
    ghost predicate Valid()
      reads this, info
    {
      && info.Length == MAX_RECORDS
      && (magic == MAGIC ==>
            && shown <= |logged|
            && failureCount == |logged| % U32
            && displayedCount == shown % U32
            && forall i :: 0 <= i < |logged| && |logged| - MAX_RECORDS <= i ==> info[Slot(i)] == logged[i])
    }

    /** What has been logged and not been shown. */
    ghost function Unseen(): seq<T>
      requires Valid()
      reads this, info
    {
      if magic == MAGIC then logged[shown..] else []
    }

    /** Power-up: the section is not initialised. */
    constructor (magic: int, failureCount: int, displayedCount: int, info: array<T>)
      requires magic != MAGIC && info.Length == MAX_RECORDS
      ensures Valid() && Unseen() == [] && this.magic != MAGIC && this.info == info
    {
      this.magic, this.failureCount, this.displayedCount, this.info := magic, failureCount, displayedCount, info;
      logged, shown := [], 0;
    }

    /** mmosal_log_failure_info */
    method Log(x: T)
      requires Valid()
      modifies this, info
      ensures Valid() && magic == MAGIC && Unseen() == old(Unseen()) + [x]
      ensures logged == (if old(magic) == MAGIC then old(logged) else []) + [x]
    {
      if magic != MAGIC {
        failureCount := 0;
        displayedCount := 0;
        logged, shown := [], 0;
      }
      magic := MAGIC;
      ghost var before := logged;
      var record := Slot(failureCount);
      SlotWraps(|logged|);
      failureCount := (failureCount + 1) % U32;
      info[record] := x;
      logged := logged + [x];
      CountWraps(|before|);
      forall i | 0 <= i < |logged| && |logged| - MAX_RECORDS <= i
        ensures info[Slot(i)] == logged[i]
      {
        if i < |before| { SlotsDiffer(i, |before|); }
      }
    }

    /** mmosal_dump_failure_info: the records visited, in order. */
    method Dump() returns (visited: seq<T>)
      requires Valid() && magic == MAGIC
      modifies this
      ensures Valid() && magic == MAGIC && logged == old(logged) && Unseen() == []
      ensures visited == Shown(old(Unseen()))
    {
      var first, count := MakePlan();
      PlanShows(logged, shown, first, count);
      visited := Visit(first, count, |logged| - count);
      displayedCount := failureCount;
      shown := |logged|;
    }

    /** Where the dump starts and how many records it visits. */
    method MakePlan() returns (first: int, newCount: int)
      ensures (first, newCount) == Plan(failureCount, displayedCount)
    {
      first := displayedCount;
      newCount := (failureCount - displayedCount) % U32;
      if newCount >= MAX_RECORDS {
        first := Slot(failureCount);
        newCount := MAX_RECORDS;
      }
    }

    /** The display loop: `count` records from the slot of `first`, which is record `start`. */
    method Visit(first: int, count: int, ghost start: nat) returns (visited: seq<T>)
      requires Valid() && magic == MAGIC
      requires 0 <= count <= MAX_RECORDS && start + count == |logged| && Slot(first) == Slot(start)
      ensures visited == logged[start..]
    {
      visited := [];
      for offset := 0 to count
        invariant visited == logged[start..start + offset]
      {
        NextSlot(start, first, offset);
        var idx := Slot((first + offset) % U32);
        visited := visited + [info[idx]];
      }
    }

    /** The boot-time hook: dump what is unseen, if the memory is valid. */
    method Boot() returns (visited: seq<T>)
      requires Valid()
      modifies this
      ensures Valid() && Unseen() == [] && magic == old(magic)
      ensures visited == Shown(old(Unseen()))
    {
      visited := [];
      if magic == MAGIC {
        visited := Dump();
      }
    }
  }

  /** The newest of the unseen records are the newest of all. */
  lemma LastOfUnseen<T>(logged: seq<T>, shown: nat, n: nat)
    requires shown + n <= |logged|
    ensures logged[|logged| - n..] == Last(logged[shown..], n)
  {}

  lemma SlotWraps(n: int)
    ensures Slot(n % U32) == Slot(n)
  {
    SlotShift(0x4000_0000 * (n / U32), n % U32);
  }

  lemma CountWraps(n: int)
    ensures (n % U32 + 1) % U32 == (n + 1) % U32
  {}

  lemma SlotsDiffer(i: int, n: int)
    requires n - MAX_RECORDS < i < n
    ensures Slot(i) != Slot(n)
  {}

  lemma DifferenceWraps(a: int, b: int)
    ensures (a % U32 - b % U32) % U32 == (a - b) % U32
  {}

  /** Where the dump starts and how many records it visits. */
  function Plan(count: int, displayed: int): (int, int) {
    var n := (count - displayed) % U32;
    if n >= MAX_RECORDS then (Slot(count), MAX_RECORDS) else (displayed, n)
  }

  /** It visits the newest records, from the slot of the oldest of them on. */
  lemma PlanCorrect(total: nat, shown: nat)
    requires shown <= total
    ensures var (first, n) := Plan(total % U32, shown % U32);
            && n == Min((total - shown) % U32, MAX_RECORDS) && 0 <= n <= total - shown
            && Slot(first) == Slot(total - n)
  {
    var all := total - shown;
    DifferenceWraps(total, shown);
    SlotWraps(total);
    SlotWraps(shown);
    if all % U32 >= MAX_RECORDS {
      SlotShift(-1, total);
    } else {
      SlotShift(0x4000_0000 * (all / U32), shown);
      assert total - all % U32 == 4 * (0x4000_0000 * (all / U32)) + shown;
    }
  }

  lemma PlanShows<T>(logged: seq<T>, shown: nat, first: int, n: int)
    requires shown <= |logged| && (first, n) == Plan(|logged| % U32, shown % U32)
    ensures 0 <= n <= MAX_RECORDS && n <= |logged| - shown && Slot(first) == Slot(|logged| - n)
    ensures logged[|logged| - n..] == Shown(logged[shown..])
  {
    PlanCorrect(|logged|, shown);
    LastOfUnseen(logged, shown, n);
  }

  lemma SlotShift(k: int, x: int)
    ensures Slot(4 * k + x) == Slot(x)
  {}

  lemma NextSlot(start: nat, first: int, offset: nat)
    requires Slot(first) == Slot(start)
    ensures Slot((first + offset) % U32) == Slot(start + offset)
  {
    SlotWraps(first + offset);
    SlotPlus(first, start, offset);
  }

  lemma SlotPlus(a: int, b: int, k: int)
    requires Slot(a) == Slot(b)
    ensures Slot(a + k) == Slot(b + k)
  {}

  /** The dump shows the last four unseen records, or all if there are fewer, exactly when
      fewer than 2^32 are unseen or their number does not wrap to less than four. */
  lemma ShowsLastFourIff<T>(unseen: seq<T>)
    ensures Shown(unseen) == Last(unseen, MAX_RECORDS)
            <==> |unseen| < U32 || |unseen| % U32 >= MAX_RECORDS
  {
    var n := |unseen| % U32;
    if |unseen| >= U32 && n < MAX_RECORDS {
      assert |Last(unseen, n)| == n && |Last(unseen, MAX_RECORDS)| == MAX_RECORDS;
    }
  }

  // ----- Whole runs of logs and reboots -----

  datatype Event<T> = Failed(x: T) | Booted

  /** What the dumps of a run show, from what was unseen at its start. */
  function Dumps<T>(events: seq<Event<T>>, unseen: seq<T>): seq<seq<T>>
    decreases |events|
  {
    if events == [] then []
    else match events[0]
      case Failed(x) => Dumps(events[1..], unseen + [x])
      case Booted => [Shown(unseen)] + Dumps(events[1..], [])
  }

  /** The same with nothing but the design's promise: the last four of the unseen records. */
  function Promised<T>(events: seq<Event<T>>, unseen: seq<T>): seq<seq<T>>
    decreases |events|
  {
    if events == [] then []
    else match events[0]
      case Failed(x) => Promised(events[1..], unseen + [x])
      case Booted => [Last(unseen, MAX_RECORDS)] + Promised(events[1..], [])
  }

  method Replay<T>(ring: Preserved<T>, events: seq<Event<T>>) returns (dumps: seq<seq<T>>)
    requires ring.Valid()
    modifies ring, ring.info
    ensures ring.Valid() && dumps == Dumps(events, old(ring.Unseen()))
    decreases |events|
  {
    if events == [] {
      return [];
    }
    match events[0] {
      case Failed(x) =>
        ring.Log(x);
        dumps := Replay(ring, events[1..]);
      case Booted =>
        var visited := ring.Boot();
        var more := Replay(ring, events[1..]);
        dumps := [visited] + more;
    }
  }

  /** At every boot fewer than 2^32 records are unseen, or their number does not wrap to less
      than four. `n` are unseen at the start. */
  predicate Countable<T>(events: seq<Event<T>>, n: nat)
    decreases |events|
  {
    if events == [] then true
    else match events[0]
      case Failed(_) => Countable(events[1..], n + 1)
      case Booted => (n < U32 || n % U32 >= MAX_RECORDS) && Countable(events[1..], 0)
  }

  lemma FailureOnlyLogs<T>(events: seq<Event<T>>, unseen: seq<T>, x: T)
    requires events != [] && events[0] == Failed(x)
    ensures Dumps(events, unseen) == Dumps(events[1..], unseen + [x])
    ensures Promised(events, unseen) == Promised(events[1..], unseen + [x])
    ensures Countable(events, |unseen|) == Countable(events[1..], |unseen + [x]|)
  {}

  lemma BootKeepsPromiseIff<T>(events: seq<Event<T>>, unseen: seq<T>)
    requires events != [] && events[0] == Booted
    ensures Dumps(events, unseen) == Promised(events, unseen)
            <==> (|unseen| < U32 || |unseen| % U32 >= MAX_RECORDS)
                 && Dumps(events[1..], []) == Promised(events[1..], [])
  {
    ShowsLastFourIff(unseen);
    FirstAndRest(Shown(unseen), Last(unseen, MAX_RECORDS), Dumps(events[1..], []), Promised(events[1..], []));
  }

  /** In a run of any length, with any number of wraps of the counters, every dump shows,
      oldest first, exactly the last four of the records logged since the previous dump, if
      and only if the run is countable. */
  lemma {:induction false} DumpsKeepPromiseIff<T>(events: seq<Event<T>>, unseen: seq<T>)
    ensures Dumps(events, unseen) == Promised(events, unseen) <==> Countable(events, |unseen|)
    decreases |events|
  {
    if events != [] {
      match events[0]
      case Failed(x) =>
        DumpsKeepPromiseIff(events[1..], unseen + [x]);
        FailureOnlyLogs(events, unseen, x);
      case Booted =>
        DumpsKeepPromiseIff<T>(events[1..], []);
        BootKeepsPromiseIff(events, unseen);
    }
  }

  /** n failures and then a boot. */
  function LogsThenBoot<T>(x: T, n: nat): seq<Event<T>> {
    if n == 0 then [Booted] else [Failed(x)] + LogsThenBoot(x, n - 1)
  }

  lemma {:induction false} LogsCountable<T>(x: T, n: nat, k: nat)
    ensures Countable(LogsThenBoot(x, n), k) <==> n + k < U32 || (n + k) % U32 >= MAX_RECORDS
    decreases n
  {
    var events := LogsThenBoot(x, n);
    if n == 0 {
      assert events[1..] == [];
    } else {
      assert events[1..] == LogsThenBoot(x, n - 1);
      LogsCountable(x, n - 1, k + 1);
    }
  }

  /** After 2^32 failures the dump shows nothing. */
  lemma WrappedDump<T>(x: T, n: nat)
    requires n == U32
    ensures Dumps(LogsThenBoot(x, n), []) != Promised(LogsThenBoot(x, n), [])
  {
    LogsCountable(x, n, 0);
    DumpsKeepPromiseIff(LogsThenBoot(x, n), []);
  }

  lemma FirstAndRest<T>(x: seq<T>, y: seq<T>, xs: seq<seq<T>>, ys: seq<seq<T>>)
    ensures [x] + xs == [y] + ys <==> x == y && xs == ys
  {
    if [x] + xs == [y] + ys {
      assert ([x] + xs)[0] == x && ([y] + ys)[0] == y;
      assert ([x] + xs)[1..] == xs && ([y] + ys)[1..] == ys;
    }
  }
}
