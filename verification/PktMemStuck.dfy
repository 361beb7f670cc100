/**
  The bound in PktMemSafety.NoStuckPause is exact: for every pool, as many allocations at once
  as the unpause threshold can leave the flag set for good.

  The run fills the pool, which sets the flag.  Then, packet by packet, an allocation starts
  before the packet is freed, so that no free ever reads a counter below the threshold; at
  the end the heap refuses all those allocations.  Pools of one or two blocks do not even need
  those allocations.
 */
module PktMemStuck {

  import opened PktMem
  import opened PktMemSafety
  import opened PktMemRuns
  import opened PktMemCalls
  import opened PktMemHistory
  import L = PacketLayout

  const QUIET: Answer := Answer(false, L.None)
  const REQUEST: Request := Request(0, 0, 0)

  /** An allocation gets as far as asking the heap. */
  lemma Asks(cfg: Config, limit: nat, reach: (State, State) -> bool, g: Shared, acts: map<nat, Stage>, t: nat)
    requires Closed(cfg, InTxAlloc, limit, reach)
    requires t !in acts && Count(acts, InTxAlloc) < limit && g.txAllocated < cfg.txBlocks
    ensures reach(State(g, acts), With(g.(txAllocated := g.txAllocated + 1), acts, t, TxHeap))
  {
    var e := TxEntry(false, REQUEST);
    var g1 := g.(txAllocated := g.txAllocated + 1);
    Starts(cfg, InTxAlloc, limit, reach, g, acts, t, e);
    Goes(cfg, InTxAlloc, limit, reach, g, acts, t, e, QUIET, g, TxAdd);
    Via(cfg, InTxAlloc, limit, reach, State(g, acts), With(g, acts, t, e), With(g, acts, t, TxAdd));
    Goes(cfg, InTxAlloc, limit, reach, g, acts, t, TxAdd, QUIET, g1, TxHeap);
    Via(cfg, InTxAlloc, limit, reach, State(g, acts), With(g, acts, t, TxAdd), With(g1, acts, t, TxHeap));
  }

  /** The heap refuses. */
  lemma Refused(cfg: Config, limit: nat, reach: (State, State) -> bool, g: Shared, acts: map<nat, Stage>, t: nat)
    requires Closed(cfg, InTxAlloc, limit, reach)
    requires t !in acts && Count(acts, InTxAlloc) < limit
    ensures reach(With(g, acts, t, TxHeap), State(g.(txAllocated := g.txAllocated - 1), acts))
  {
    Goes(cfg, InTxAlloc, limit, reach, g, acts, t, TxHeap, QUIET, g, TxUndo);
    Ends(cfg, InTxAlloc, limit, reach, g, acts, t, TxUndo, QUIET, g.(txAllocated := g.txAllocated - 1));
    Via(cfg, InTxAlloc, limit, reach, With(g, acts, t, TxHeap), With(g, acts, t, TxUndo),
               State(g.(txAllocated := g.txAllocated - 1), acts));
  }

  lemma Uncounted(cfg: Config, limit: nat, reach: (State, State) -> bool, g: Shared, acts: map<nat, Stage>,
                  t: nat, a: nat)
    requires Closed(cfg, InTxAlloc, limit, reach)
    requires t !in acts && Count(acts, InTxAlloc) <= limit
    ensures reach(With(g, acts, t, Hold(a, TxDataOps)),
                    With(g.(txAllocated := g.txAllocated - 1), acts, t, DataHeap(a)))
  {
    var g1 := g.(txAllocated := g.txAllocated - 1);
    Goes(cfg, InTxAlloc, limit, reach, g, acts, t, Hold(a, TxDataOps), QUIET, g, DataSub(a));
    Goes(cfg, InTxAlloc, limit, reach, g, acts, t, DataSub(a), QUIET, g1, DataHeap(a));
    Via(cfg, InTxAlloc, limit, reach, With(g, acts, t, Hold(a, TxDataOps)), With(g, acts, t, DataSub(a)),
               With(g1, acts, t, DataHeap(a)));
  }

  lemma GivenBack(cfg: Config, limit: nat, reach: (State, State) -> bool, g: Shared, acts: map<nat, Stage>,
                  t: nat, a: nat)
    requires Closed(cfg, InTxAlloc, limit, reach)
    requires t !in acts && Count(acts, InTxAlloc) <= limit && g.txAllocated >= cfg.UnpauseThreshold()
    ensures reach(With(g, acts, t, DataHeap(a)), State(g.(heap := g.heap - {a}), acts))
  {
    var g1 := g.(heap := g.heap - {a});
    Goes(cfg, InTxAlloc, limit, reach, g, acts, t, DataHeap(a), QUIET, g1, DataRead);
    Ends(cfg, InTxAlloc, limit, reach, g1, acts, t, DataRead, QUIET, g1);
    Via(cfg, InTxAlloc, limit, reach, With(g, acts, t, DataHeap(a)), With(g1, acts, t, DataRead), State(g1, acts));
  }

  /** A packet is freed while the pool stays at the threshold or above. */
  lemma FreedQuietly(cfg: Config, limit: nat, reach: (State, State) -> bool, g: Shared, acts: map<nat, Stage>,
                     t: nat, a: nat)
    requires Closed(cfg, InTxAlloc, limit, reach)
    requires t !in acts && Count(acts, InTxAlloc) <= limit
    requires g.txAllocated - 1 >= cfg.UnpauseThreshold()
    ensures reach(With(g, acts, t, Hold(a, TxDataOps)),
                    State(g.(txAllocated := g.txAllocated - 1, heap := g.heap - {a}), acts))
  {
    var g1 := g.(txAllocated := g.txAllocated - 1);
    Uncounted(cfg, limit, reach, g, acts, t, a);
    GivenBack(cfg, limit, reach, g1, acts, t, a);
    Via(cfg, InTxAlloc, limit, reach, With(g, acts, t, Hold(a, TxDataOps)), With(g1, acts, t, DataHeap(a)),
               State(g1.(heap := g.heap - {a}), acts));
  }

  // ----- The run -----

  function Pool(count: int, paused: bool, lo: nat, hi: nat, flips: nat): Shared {
    Shared(count, paused, 0, [0, 1], [0, 1], Range(lo, hi), flips, flips)
  }

  predicate Within(lo: nat, hi: nat, x: nat) { lo <= x < hi }

  function Range(lo: nat, hi: nat): set<nat> {
    set x: nat | x < hi && Within(lo, hi, x)
  }

  lemma {:induction false} RangeSize(lo: nat, hi: nat)
    requires lo <= hi
    ensures |Range(lo, hi)| == hi - lo
    decreases hi
  {
    if lo < hi {
      RangeSize(lo, hi - 1);
      assert Range(lo, hi) == Range(lo, hi - 1) + {hi - 1};
    } else {
      assert Range(lo, hi) == {};
    }
  }

  /** Packets lo, ..., n - 1 are held; allocations n, ..., hi - 1 wait for the heap. */
  function Line(n: nat, lo: nat, hi: nat): map<nat, Stage> {
    map t: nat | t in Range(lo, hi) :: if t < n then Hold(t, TxDataOps) else TxHeap
  }

  lemma LineInFlight(n: nat, lo: nat, hi: nat)
    requires lo <= hi
    ensures Count(Line(n, lo, hi), InTxAlloc) == if hi <= n then 0 else if lo <= n then hi - n else hi - lo
  {
    var from := if hi <= n then hi else if lo <= n then n else lo;
    var waiting := Range(from, hi);
    RangeSize(from, hi);
    assert Members(Line(n, lo, hi), InTxAlloc) == waiting;
  }

  /** The pool with packets lo, ..., lo + i - 1, after nothing but their allocation. */
  function Stocked(n: nat, lo: nat, i: nat): Shared {
    Pool(i, i == n, lo, lo + i, One(i == n))
  }

  lemma RangeGrows(lo: nat, hi: nat)
    requires lo <= hi
    ensures hi !in Range(lo, hi) && Range(lo, hi) + {hi} == Range(lo, hi + 1)
  {}

  /** One more packet; the last one sets the flag. */
  lemma StocksOne(cfg: Config, lo: nat, i: nat, a: nat)
    requires i < cfg.txBlocks && a == lo + i
    ensures var n := cfg.txBlocks;
            && a !in Stocked(n, lo, i).heap
            && DataAlloc(cfg, Stocked(n, lo, i), L.Some(a)) == (Stocked(n, lo, i + 1), L.Some(Hold(a, TxDataOps)))
  {
    RangeGrows(lo, a);
    StocksAny(cfg, Range(lo, a), Range(lo, a + 1), i, a);
  }

  lemma StocksAny(cfg: Config, h: set<nat>, h': set<nat>, i: nat, a: nat)
    requires i < cfg.txBlocks && h' == h + {a}
    ensures var full := i + 1 == cfg.txBlocks;
            DataAlloc(cfg, Shared(i, false, 0, [0, 1], [0, 1], h, 0, 0), L.Some(a))
            == (Shared(i + 1, full, 0, [0, 1], [0, 1], h', One(full), One(full)), L.Some(Hold(a, TxDataOps)))
  {}

  lemma LineGrows(n: nat, i: nat)
    requires i < n
    ensures i !in Line(n, 0, i) && Count(Line(n, 0, i), InTxAlloc) == 0
    ensures Put(Line(n, 0, i), i, L.Some(Hold(i, TxDataOps))) == Line(n, 0, i + 1)
  {
    LineInFlight(n, 0, i);
  }

  lemma FillsOne(cfg: Config, limit: nat, reach: (State, State) -> bool, i: nat, x: State, y: State)
    requires Closed(cfg, InTxAlloc, limit, reach) && limit >= 1 && i < cfg.txBlocks
    requires x == State(Stocked(cfg.txBlocks, 0, i), Line(cfg.txBlocks, 0, i))
    requires y == State(Stocked(cfg.txBlocks, 0, i + 1), Line(cfg.txBlocks, 0, i + 1))
    ensures reach(x, y)
  {
    LineGrows(cfg.txBlocks, i);
    StocksOne(cfg, 0, i, i);
    AllocatesOne(cfg, InTxAlloc, limit, reach, x, i, y);
  }

  /** A whole allocation of the packet `a` by activity `a`. */
  lemma AllocatesOne(cfg: Config, call: Stage -> bool, limit: nat, reach: (State, State) -> bool, x: State, a: nat,
                     y: State)
    requires Closed(cfg, call, limit, reach) && Count(x.acts, call) < limit
    requires a !in x.acts && a !in x.shared.heap
    requires DataAlloc(cfg, x.shared, L.Some(a)) == (y.shared, L.Some(Hold(a, TxDataOps)))
    requires y.acts == Put(x.acts, a, L.Some(Hold(a, TxDataOps)))
    ensures reach(x, y)
  {
    TxCallIsAlone(cfg, x.shared, false, REQUEST, L.Some(a));
    CallIsRun(cfg, call, limit, reach, x, Alloc(a, TxEntry(false, REQUEST), L.Some(a)));
  }

  lemma {:induction false} Filling(cfg: Config, limit: nat, reach: (State, State) -> bool, at: nat -> State, i: nat)
    requires Closed(cfg, InTxAlloc, limit, reach) && limit >= 1 && i <= cfg.txBlocks
    requires forall k: nat :: at(k) == State(Stocked(cfg.txBlocks, 0, k), Line(cfg.txBlocks, 0, k))
    ensures reach(at(0), at(i))
    decreases i
  {
    if i > 0 {
      Filling(cfg, limit, reach, at, i - 1);
      FillsOne(cfg, limit, reach, i - 1, at(i - 1), at(i));
      Via(cfg, InTxAlloc, limit, reach, at(0), at(i - 1), at(i));
    }
  }

  /** The last packet sets the flag. */
  lemma Filled(cfg: Config, limit: nat, reach: (State, State) -> bool)
    requires Closed(cfg, InTxAlloc, limit, reach) && limit >= 1 && cfg.txBlocks >= 1
    ensures reach(Init(), Paused(cfg.txBlocks, cfg.txBlocks, 0, cfg.txBlocks))
  {
    var n := cfg.txBlocks;
    Filling(cfg, limit, reach, (k: nat) => State(Stocked(n, 0, k), Line(n, 0, k)), n);
    assert Range(0, 0) == {} && Line(n, 0, 0) == map[];
  }

  lemma LineFront(n: nat, lo: nat, hi: nat)
    requires lo < hi
    ensures lo !in Line(n, lo + 1, hi)
    ensures Line(n, lo + 1, hi)[lo := if lo < n then Hold(lo, TxDataOps) else TxHeap] == Line(n, lo, hi)
  {}

  lemma LineBack(n: nat, lo: nat, hi: nat)
    requires lo <= n <= hi
    ensures hi !in Line(n, lo, hi)
    ensures Line(n, lo, hi)[hi := TxHeap] == Line(n, lo, hi + 1)
  {}

  lemma PoolDrop(count: int, lo: nat, hi: nat)
    requires lo < hi
    ensures var g := Pool(count, true, lo, hi, 1);
            g.(txAllocated := g.txAllocated - 1, heap := g.heap - {lo}) == Pool(count - 1, true, lo + 1, hi, 1)
  {
    assert Range(lo, hi) - {lo} == Range(lo + 1, hi);
  }

  /** Packets lo, ..., n - 1 held and allocations up to hi - 1 waiting, with the flag set. */
  function Paused(n: nat, count: int, lo: nat, hi: nat): State {
    State(Pool(count, true, lo, n, 1), Line(n, lo, hi))
  }

  /** Freeing the first packet of a line. */
  lemma FreesFirst(cfg: Config, limit: nat, reach: (State, State) -> bool, n: nat, lo: nat, hi: nat, count: int)
    requires Closed(cfg, InTxAlloc, limit, reach)
    requires lo < n <= hi && count - 1 >= cfg.UnpauseThreshold() && hi - n <= limit
    ensures reach(Paused(n, count, lo, hi), Paused(n, count - 1, lo + 1, hi))
  {
    FreesFirstStates(n, lo, hi, count);
    FreesLine(cfg, limit, reach, Pool(count, true, lo, n, 1), n, lo, hi,
              Paused(n, count, lo, hi), Paused(n, count - 1, lo + 1, hi));
  }

  lemma FreesLine(cfg: Config, limit: nat, reach: (State, State) -> bool, g: Shared, n: nat, lo: nat, hi: nat,
                  x: State, y: State)
    requires Closed(cfg, InTxAlloc, limit, reach)
    requires lo < n <= hi && g.txAllocated - 1 >= cfg.UnpauseThreshold() && hi - n <= limit
    requires x == With(g, Line(n, lo + 1, hi), lo, Hold(lo, TxDataOps))
    requires y == State(g.(txAllocated := g.txAllocated - 1, heap := g.heap - {lo}), Line(n, lo + 1, hi))
    ensures reach(x, y)
  {
    LineInFlight(n, lo + 1, hi);
    FreedQuietly(cfg, limit, reach, g, Line(n, lo + 1, hi), lo, lo);
  }

  lemma FreesFirstStates(n: nat, lo: nat, hi: nat, count: int)
    requires lo < n <= hi
    ensures lo !in Line(n, lo + 1, hi)
    ensures var g := Pool(count, true, lo, n, 1);
            && With(g, Line(n, lo + 1, hi), lo, Hold(lo, TxDataOps)) == Paused(n, count, lo, hi)
            && State(g.(txAllocated := g.txAllocated - 1, heap := g.heap - {lo}), Line(n, lo + 1, hi))
               == Paused(n, count - 1, lo + 1, hi)
  {
    LineFront(n, lo, hi);
    PoolDrop(count, lo, n);
  }

  /** One more allocation starts. */
  lemma AddsLast(cfg: Config, limit: nat, reach: (State, State) -> bool, n: nat, lo: nat, hi: nat, count: int)
    requires Closed(cfg, InTxAlloc, limit, reach)
    requires lo < n <= hi && count < cfg.txBlocks && hi - n < limit
    ensures reach(Paused(n, count, lo, hi), Paused(n, count + 1, lo, hi + 1))
  {
    LineInFlight(n, lo, hi);
    LineBack(n, lo, hi);
    Asks(cfg, limit, reach, Pool(count, true, lo, n, 1), Line(n, lo, hi), hi);
  }

  /** The first waiting allocation is refused. */
  lemma RefusesFirst(cfg: Config, limit: nat, reach: (State, State) -> bool, n: nat, lo: nat, hi: nat, count: int)
    requires Closed(cfg, InTxAlloc, limit, reach)
    requires n <= lo < hi && hi - lo <= limit
    ensures reach(Paused(n, count, lo, hi), Paused(n, count - 1, lo + 1, hi))
  {
    LineInFlight(n, lo + 1, hi);
    LineFront(n, lo, hi);
    assert Range(lo, n) == Range(lo + 1, n);
    Refused(cfg, limit, reach, Pool(count, true, lo, n, 1), Line(n, lo + 1, hi), lo);
  }

  /** Marks the legs that a proof uses. */
  predicate Leg(lo: nat, hi: nat, count: int) { true }

  ghost predicate Composes(reach: (State, State) -> bool) {
    forall x: State, y: State, z: State :: reach(x, y) && reach(y, z) ==> reach(x, z)
  }

  /** The line of argument without the states: `at` stands for Paused. */
  ghost predicate FreeLegsAt(reach: (State, State) -> bool, at: (int, nat, nat) -> State, n: nat) {
    forall lo: nat, hi: nat, count: int {:trigger Leg(lo, hi, count)} ::
      Leg(lo, hi, count) && lo < n <= hi <= n + n - 2 && count >= n - 1
      ==> reach(at(count, lo, hi), at(count - 1, lo + 1, hi))
  }

  ghost predicate AddLegsAt(reach: (State, State) -> bool, at: (int, nat, nat) -> State, n: nat) {
    forall lo: nat, hi: nat, count: int {:trigger Leg(lo, hi, count)} ::
      Leg(lo, hi, count) && lo < n <= hi < n + n - 2 && count < n
      ==> reach(at(count, lo, hi), at(count + 1, lo, hi + 1))
  }

  ghost predicate RefuseLegsAt(reach: (State, State) -> bool, at: (int, nat, nat) -> State, n: nat) {
    forall lo: nat, hi: nat, count: int {:trigger Leg(lo, hi, count)} ::
      Leg(lo, hi, count) && n <= lo < hi <= n + n - 2 ==> reach(at(count, lo, hi), at(count - 1, lo + 1, hi))
  }

  ghost predicate IsPaused(at: (int, nat, nat) -> State, n: nat) {
    forall count: int, lo: nat, hi: nat :: at(count, lo, hi) == Paused(n, count, lo, hi)
  }

  lemma HasFreeLegs(cfg: Config, limit: nat, reach: (State, State) -> bool, at: (int, nat, nat) -> State, n: nat)
    requires Closed(cfg, InTxAlloc, limit, reach) && n == cfg.txBlocks >= 3 && limit >= cfg.UnpauseThreshold()
    requires IsPaused(at, n)
    ensures FreeLegsAt(reach, at, n)
  {
    forall lo: nat, hi: nat, count: int | lo < n <= hi <= n + n - 2 && count >= n - 1
      ensures reach(at(count, lo, hi), at(count - 1, lo + 1, hi))
    {
      FreeLeg(cfg, limit, reach, n, lo, hi, count, at(count, lo, hi), at(count - 1, lo + 1, hi));
    }
  }

  lemma FreeLeg(cfg: Config, limit: nat, reach: (State, State) -> bool, n: nat, lo: nat, hi: nat, count: int,
                x: State, y: State)
    requires Closed(cfg, InTxAlloc, limit, reach) && n == cfg.txBlocks >= 3 && limit >= cfg.UnpauseThreshold()
    requires lo < n <= hi <= n + n - 2 && count >= n - 1
    requires x == Paused(n, count, lo, hi) && y == Paused(n, count - 1, lo + 1, hi)
    ensures reach(x, y)
  {
    FreesFirst(cfg, limit, reach, n, lo, hi, count);
  }

  lemma HasAddLegs(cfg: Config, limit: nat, reach: (State, State) -> bool, at: (int, nat, nat) -> State, n: nat)
    requires Closed(cfg, InTxAlloc, limit, reach) && n == cfg.txBlocks >= 3 && limit >= cfg.UnpauseThreshold()
    requires IsPaused(at, n)
    ensures AddLegsAt(reach, at, n)
  {
    forall lo: nat, hi: nat, count: int | lo < n <= hi < n + n - 2 && count < n
      ensures reach(at(count, lo, hi), at(count + 1, lo, hi + 1))
    {
      AddLeg(cfg, limit, reach, n, lo, hi, count, at(count, lo, hi), at(count + 1, lo, hi + 1));
    }
  }

  lemma AddLeg(cfg: Config, limit: nat, reach: (State, State) -> bool, n: nat, lo: nat, hi: nat, count: int,
               x: State, y: State)
    requires Closed(cfg, InTxAlloc, limit, reach) && n == cfg.txBlocks >= 3 && limit >= cfg.UnpauseThreshold()
    requires lo < n <= hi < n + n - 2 && count < n
    requires x == Paused(n, count, lo, hi) && y == Paused(n, count + 1, lo, hi + 1)
    ensures reach(x, y)
  {
    AddsLast(cfg, limit, reach, n, lo, hi, count);
  }

  lemma HasRefuseLegs(cfg: Config, limit: nat, reach: (State, State) -> bool, at: (int, nat, nat) -> State, n: nat)
    requires Closed(cfg, InTxAlloc, limit, reach) && n == cfg.txBlocks >= 3 && limit >= cfg.UnpauseThreshold()
    requires IsPaused(at, n)
    ensures RefuseLegsAt(reach, at, n)
  {
    forall lo: nat, hi: nat, count: int | n <= lo < hi <= n + n - 2
      ensures reach(at(count, lo, hi), at(count - 1, lo + 1, hi))
    {
      RefuseLeg(cfg, limit, reach, n, lo, hi, count, at(count, lo, hi), at(count - 1, lo + 1, hi));
    }
  }

  lemma RefuseLeg(cfg: Config, limit: nat, reach: (State, State) -> bool, n: nat, lo: nat, hi: nat, count: int,
                  x: State, y: State)
    requires Closed(cfg, InTxAlloc, limit, reach) && n == cfg.txBlocks >= 3 && limit >= cfg.UnpauseThreshold()
    requires n <= lo < hi <= n + n - 2
    requires x == Paused(n, count, lo, hi) && y == Paused(n, count - 1, lo + 1, hi)
    ensures reach(x, y)
  {
    RefusesFirst(cfg, limit, reach, n, lo, hi, count);
  }

  /** From n packets held, j allocations come to wait while j + 2 packets are freed... */
  lemma {:induction false} Draining(reach: (State, State) -> bool, at: (int, nat, nat) -> State, init: State,
                                    n: nat, j: nat)
    requires Composes(reach) && FreeLegsAt(reach, at, n) && AddLegsAt(reach, at, n)
    requires n >= 3 && j <= n - 2 && reach(init, at(n, 0, n))
    ensures reach(init, at(n - 2, j + 2, n + j))
  {
    if j == 0 {
      assert Leg(0, n, n) && Leg(1, n, n - 1);
    } else {
      Draining(reach, at, init, n, j - 1);
      assert Leg(j + 1, n + j - 1, n - 2);
      assert Leg(j + 1, n + j, n - 1);
    }
  }

  /** ...and then k of them are refused. */
  lemma {:induction false} Refusing(reach: (State, State) -> bool, at: (int, nat, nat) -> State, init: State,
                                    n: nat, k: nat)
    requires Composes(reach) && RefuseLegsAt(reach, at, n)
    requires n >= 3 && k <= n - 2 && reach(init, at(n - 2, n, n + n - 2))
    ensures reach(init, at(n - 2 - k, n + k, n + n - 2))
  {
    if k > 0 {
      Refusing(reach, at, init, n, k - 1);
      assert Leg(n + k - 1, n + n - 2, n - 1 - k);
    }
  }

  lemma ClosedComposes(cfg: Config, limit: nat, reach: (State, State) -> bool)
    requires Closed(cfg, InTxAlloc, limit, reach)
    ensures Composes(reach)
  {
    forall x: State, y: State, z: State | reach(x, y) && reach(y, z)
      ensures reach(x, z)
    {
      Via(cfg, InTxAlloc, limit, reach, x, y, z);
    }
  }

  lemma DrainedAt(reach: (State, State) -> bool, at: (int, nat, nat) -> State, init: State, n: nat)
    requires Composes(reach) && FreeLegsAt(reach, at, n) && AddLegsAt(reach, at, n) && RefuseLegsAt(reach, at, n)
    requires n >= 3 && reach(init, at(n, 0, n))
    ensures reach(init, at(0, n + n - 2, n + n - 2))
  {
    Draining(reach, at, init, n, n - 2);
    Refusing(reach, at, init, n, n - 2);
  }

  /** The run: from the empty pool, through a full one, to one with no packet and no call left, and
      the flag set. */
  lemma Drained(cfg: Config, limit: nat, reach: (State, State) -> bool)
    requires Closed(cfg, InTxAlloc, limit, reach) && cfg.txBlocks >= 3 && limit >= cfg.UnpauseThreshold()
    ensures var n := cfg.txBlocks; reach(Init(), Paused(n, 0, n + n - 2, n + n - 2))
  {
    var n := cfg.txBlocks;
    var at := (count: int, lo: nat, hi: nat) => Paused(n, count, lo, hi);
    HasFreeLegs(cfg, limit, reach, at, n);
    HasAddLegs(cfg, limit, reach, at, n);
    HasRefuseLegs(cfg, limit, reach, at, n);
    Filled(cfg, limit, reach);
    ClosedComposes(cfg, limit, reach);
    DrainedAt(reach, at, Init(), n);
  }

  /** Pools of one or two blocks never resume: the packets can just be freed. */
  lemma FreesFull(cfg: Config, limit: nat, reach: (State, State) -> bool, x: State, y: State, k: nat)
    requires Closed(cfg, InTxAlloc, limit, reach) && 1 <= cfg.txBlocks <= 2 && k < cfg.txBlocks
    requires x == Paused(cfg.txBlocks, cfg.txBlocks - k, k, cfg.txBlocks)
    requires y == Paused(cfg.txBlocks, cfg.txBlocks - k - 1, k + 1, cfg.txBlocks)
    ensures reach(x, y)
  {
    FreesFirst(cfg, limit, reach, cfg.txBlocks, k, cfg.txBlocks, cfg.txBlocks - k);
  }

  lemma FilledAt(cfg: Config, limit: nat, reach: (State, State) -> bool, x: State)
    requires Closed(cfg, InTxAlloc, limit, reach) && limit >= 1 && cfg.txBlocks >= 1
    requires x == Paused(cfg.txBlocks, cfg.txBlocks, 0, cfg.txBlocks)
    ensures reach(Init(), x)
  {
    Filled(cfg, limit, reach);
  }

  lemma Emptied(cfg: Config, limit: nat, reach: (State, State) -> bool, x: State, y: State, z: State)
    requires Closed(cfg, InTxAlloc, limit, reach) && limit >= 1 && 1 <= cfg.txBlocks <= 2
    requires x == Paused(cfg.txBlocks, cfg.txBlocks, 0, cfg.txBlocks)
    requires y == Paused(cfg.txBlocks, cfg.txBlocks - 1, 1, cfg.txBlocks)
    requires z == Paused(cfg.txBlocks, cfg.txBlocks - 2, 2, cfg.txBlocks)
    ensures reach(Init(), if cfg.txBlocks == 1 then y else z)
  {
    FilledAt(cfg, limit, reach, x);
    FreesFull(cfg, limit, reach, x, y, 0);
    Via(cfg, InTxAlloc, limit, reach, Init(), x, y);
    if cfg.txBlocks == 2 {
      FreesFull(cfg, limit, reach, y, z, 1);
      Via(cfg, InTxAlloc, limit, reach, Init(), y, z);
    }
  }

  /** Some end of the line at which the flag is set and nothing is left. */
  lemma Stuck(cfg: Config, limit: nat, reach: (State, State) -> bool) returns (lo: nat)
    requires Closed(cfg, InTxAlloc, limit, reach) && cfg.txBlocks >= 1 && limit >= 1 && limit >= cfg.UnpauseThreshold()
    ensures reach(Init(), Paused(cfg.txBlocks, 0, lo, lo))
  {
    var n := cfg.txBlocks;
    if n >= 3 {
      Drained(cfg, limit, reach);
      lo := n + n - 2;
    } else {
      var count: int := n;
      Emptied(cfg, limit, reach, Paused(n, count, 0, n), Paused(n, count - 1, 1, n), Paused(n, count - 2, 2, n));
      lo := n;
    }
  }

  /** No activity is left, the counter is zero, and the state is still paused. */
  lemma StuckPause(cfg: Config, limit: nat)
    requires cfg.txBlocks >= 1 && limit >= 1 && limit >= cfg.txBlocks - 2
    ensures exists s: State, n: nat ::
              Run(cfg, InTxAlloc, limit, Init(), s, n) && s.acts == map[] && s.shared.txAllocated == 0
              && FlowControlState(s.shared) == TxPaused
  {
    var reach := (x: State, y: State) => Reaches(cfg, InTxAlloc, limit, x, y);
    ReachesClosed(cfg, InTxAlloc, limit, reach);
    var lo := Stuck(cfg, limit, reach);
    var s := Paused(cfg.txBlocks, 0, lo, lo);
    assert s.acts == map[];
    var k: nat :| Run(cfg, InTxAlloc, limit, Init(), s, k);
  }

  // ----- Runs that cannot pause at all -----

  /** With no blocks or no allocations the flag is never set. */
  ghost predicate Unpaused(cfg: Config, limit: nat, s: State) {
    !s.shared.paused && Counters(cfg, s) && InFlight(s) <= limit
  }

  lemma StepPauses(cfg: Config, g: Shared, st: Stage, ans: Answer)
    requires !g.paused && !st.TxPause?
    ensures !Step(cfg, g, st, ans).0.paused
  {}

  lemma UnpausedStep(cfg: Config, limit: nat, s: State, m: State)
    requires cfg.txBlocks == 0 || limit == 0
    requires Unpaused(cfg, limit, s) && StepTo(cfg, InTxAlloc, limit, s, m)
    ensures Unpaused(cfg, limit, m)
  {
    var l: Label :| Enabled(s, l) && m == Apply(cfg, s, l);
    CountersKept(cfg, s, l);
    if l.Move? {
      var st := s.acts[l.t];
      if InTxAlloc(st) { CountPositive(s.acts, l.t, InTxAlloc); }
      if Admitted(st) { CountPositive(s.acts, l.t, Admitted); }
      StepPauses(cfg, s.shared, st, l.ans);
    }
  }

  lemma NeverPauses(cfg: Config, limit: nat, s: State, n: nat)
    requires cfg.txBlocks == 0 || limit == 0
    requires Run(cfg, InTxAlloc, limit, Init(), s, n)
    ensures FlowControlState(s.shared) == TxReady
  {
    InitInv(cfg);
    CountEmpty(InTxAlloc);
    var inv := (x: State) => Unpaused(cfg, limit, x);
    forall x: State, y: State | inv(x) && Stepping(cfg, InTxAlloc, limit)(x, y)
      ensures inv(y)
    {
      UnpausedStep(cfg, limit, x, y);
    }
    Along(Stepping(cfg, InTxAlloc, limit), inv, Init(), s, n);
  }

  /** Every run with at most `limit` allocations at once ends ready, once idle... */
  ghost predicate NeverStuck(cfg: Config, limit: nat) {
    forall s: State, n: nat ::
      Run(cfg, InTxAlloc, limit, Init(), s, n) && s.acts == map[] ==> FlowControlState(s.shared) == TxReady
  }

  /** ...exactly when `limit` is below the unpause threshold, for every pool of three or more
      blocks; smaller pools only when nothing can be allocated. */
  lemma NeverStuckIff(cfg: Config, limit: nat)
    ensures NeverStuck(cfg, limit) <==> limit < cfg.txBlocks - 2 || limit == 0 || cfg.txBlocks == 0
  {
    if limit == 0 || cfg.txBlocks == 0 {
      forall s: State, n: nat | Run(cfg, InTxAlloc, limit, Init(), s, n) && s.acts == map[]
        ensures FlowControlState(s.shared) == TxReady
      {
        NeverPauses(cfg, limit, s, n);
      }
    } else if limit < cfg.UnpauseThreshold() {
      forall s: State, n: nat | Run(cfg, InTxAlloc, limit, Init(), s, n) && s.acts == map[]
        ensures FlowControlState(s.shared) == TxReady
      {
        NoStuckPause(cfg, limit, s, n);
      }
    } else {
      StuckPause(cfg, limit);
    }
  }
}
