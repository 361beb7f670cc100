/**
  Whether a full pool is always a paused one.  With one call at a time it is; but a free that has
  read the counter and not yet cleared the flag can be overtaken by allocations that fill the pool,
  and then clears the flag that they have set.
 */
module PktMemFull {

  import opened PktMem
  import opened PktMemSafety
  import opened PktMemRuns
  import opened PktMemCalls
  import opened PktMemHistory
  import opened PktMemSerial
  import opened PktMemStuck
  import L = PacketLayout

  /** In every run with at most `limit` calls of any kind under way, an idle full pool is paused. */
  ghost predicate FullIsPaused(cfg: Config, limit: nat) {
    forall s: State ::
      Reaches(cfg, Busy, limit, Init(), s) && Idle(s) && s.shared.txAllocated == cfg.txBlocks ==>
        FlowControlState(s.shared) == TxPaused
  }

  // ----- One call at a time -----

  lemma ReachesFewer(cfg: Config, s: State)
    requires Reaches(cfg, Busy, 0, Init(), s)
    ensures Reaches(cfg, Busy, 1, Init(), s)
  {
    var n: nat :| Run(cfg, Busy, 0, Init(), s, n);
    var few, more := Stepping(cfg, Busy, 0), Stepping(cfg, Busy, 1);
    forall x: State, y: State | few(x, y) ensures more(x, y) { assert StepTo(cfg, Busy, 0, x, y); }
    ChainWithin(few, more, Init(), s, n);
    assert Run(cfg, Busy, 1, Init(), s, n);
  }

  lemma {:induction false} ChainWithin(few: (State, State) -> bool, more: (State, State) -> bool, s: State, s': State,
                                       n: nat)
    requires forall x: State, y: State :: few(x, y) ==> more(x, y)
    requires Chain(few, s, s', n)
    ensures Chain(more, s, s', n)
    decreases n
  {
    if n > 0 {
      var m: State :| few(s, m) && Chain(few, m, s', n - 1);
      ChainWithin(few, more, m, s', n - 1);
    }
  }

  lemma OneAtATime(cfg: Config, limit: nat, s: State)
    requires limit <= 1 && cfg.txBlocks > 0
    requires Reaches(cfg, Busy, limit, Init(), s) && Idle(s) && s.shared.txAllocated == cfg.txBlocks
    ensures FlowControlState(s.shared) == TxPaused
  {
    if limit == 0 { ReachesFewer(cfg, s); }
    var calls := SerialHysteresis(cfg, s);
  }

  // ----- Pools of one or two blocks -----

  /** Admitted, and not yet past the exchange of the flag. */
  predicate Pending(st: Stage) {
    st.TxHeap? || st.TxUndo? || st.TxOps? || st.TxRead? || st.TxPause?
  }

  /** No free is about to clear the flag, and a full pool is paused or about to be. */
  ghost predicate Armed(cfg: Config, s: State) {
    && Counters(cfg, s)
    && Count(s.acts, Resuming) == 0
    && (s.shared.paused || Count(s.acts, Admitted) < cfg.txBlocks || Count(s.acts, Pending) > 0)
  }

  predicate Resuming(st: Stage) { st.DataResume? }

  /** What one step does to the flag and to the pool. */
  lemma StepArms(cfg: Config, g: Shared, st: Stage, ans: Answer)
    requires !Resuming(st)
    ensures var (g', n) := Step(cfg, g, st, ans);
            && (g.paused ==> g'.paused)
            && (Will(n, Resuming) ==> g.txAllocated < cfg.UnpauseThreshold())
            && (!Admitted(st) && Will(n, Admitted) ==> Will(n, Pending))
            && (Pending(st) && !Will(n, Pending) ==>
                  g'.paused || !Will(n, Admitted) || g.txAllocated < cfg.txBlocks)
            && (Pending(st) ==> Admitted(st))
  {}

  lemma ArmedKept(cfg: Config, s: State, l: Label)
    requires 1 <= cfg.txBlocks <= 2 && Enabled(s, l) && Armed(cfg, s)
    ensures Armed(cfg, Apply(cfg, s, l))
  {
    CountersKept(cfg, s, l);
    ApplyPuts(cfg, s, l, Resuming);
    ApplyPuts(cfg, s, l, Admitted);
    ApplyPuts(cfg, s, l, Pending);
    CountSubset(s.acts, Admitted, Counted);
    if l.Move? {
      var st := s.acts[l.t];
      if Resuming(st) { CountPositive(s.acts, l.t, Resuming); }
      StepArms(cfg, s.shared, st, l.ans);
    }
  }

  lemma ArmedStep(cfg: Config, limit: nat, s: State, m: State)
    requires 1 <= cfg.txBlocks <= 2 && Armed(cfg, s) && StepTo(cfg, Busy, limit, s, m)
    ensures Armed(cfg, m)
  {
    var l: Label :| Enabled(s, l) && m == Apply(cfg, s, l);
    ArmedKept(cfg, s, l);
  }

  lemma InitArmed(cfg: Config)
    requires cfg.txBlocks >= 1
    ensures Armed(cfg, Init())
  {
    InitInv(cfg);
    CountEmpty(Resuming);
    CountEmpty(Admitted);
  }

  lemma IdleArmed(cfg: Config, s: State)
    requires Armed(cfg, s) && Idle(s) && s.shared.txAllocated == cfg.txBlocks
    ensures s.shared.paused
  {
    assert Members(s.acts, Pending) == {};
    assert Members(s.acts, Admitted) == Members(s.acts, Counted);
  }

  lemma SmallPool(cfg: Config, limit: nat, s: State)
    requires 1 <= cfg.txBlocks <= 2
    requires Reaches(cfg, Busy, limit, Init(), s) && Idle(s) && s.shared.txAllocated == cfg.txBlocks
    ensures FlowControlState(s.shared) == TxPaused
  {
    var n: nat :| Run(cfg, Busy, limit, Init(), s, n);
    var inv := (x: State) => Armed(cfg, x);
    InitArmed(cfg);
    forall x: State, y: State | inv(x) && Stepping(cfg, Busy, limit)(x, y)
      ensures inv(y)
    {
      ArmedStep(cfg, limit, x, y);
    }
    Along(Stepping(cfg, Busy, limit), inv, Init(), s, n);
    IdleArmed(cfg, s);
  }

  // ----- Larger pools: a run that leaves a full pool ready -----

  /** Packets 1, ..., i are held, and the free of packet 0 is about to clear the flag. */
  function Overtaken(n: nat, i: nat): map<nat, Stage> {
    Line(n + 1, 1, i + 1)[0 := DataResume]
  }

  lemma OvertakenBusy(n: nat, i: nat)
    requires i <= n
    ensures Count(Overtaken(n, i), Busy) == 1 && i + 1 !in Overtaken(n, i)
  {
    assert Members(Overtaken(n, i), Busy) == {0};
  }

  lemma OvertakenNext(n: nat, i: nat)
    requires 1 <= i <= n
    ensures Put(Overtaken(n, i - 1), i, L.Some(Hold(i, TxDataOps))) == Overtaken(n, i)
  {}

  /** A whole allocation while the free waits. */
  lemma Overtakes(cfg: Config, limit: nat, reach: (State, State) -> bool, i: nat, x: State, y: State)
    requires Closed(cfg, Busy, limit, reach) && limit >= 2 && 1 <= i <= cfg.txBlocks
    requires x == State(Stocked(cfg.txBlocks, 1, i - 1), Overtaken(cfg.txBlocks, i - 1))
    requires y == State(Stocked(cfg.txBlocks, 1, i), Overtaken(cfg.txBlocks, i))
    ensures reach(x, y)
  {
    OvertakenBusy(cfg.txBlocks, i - 1);
    OvertakenNext(cfg.txBlocks, i);
    StocksOne(cfg, 1, i - 1, i);
    AllocatesOne(cfg, Busy, limit, reach, x, i, y);
  }

  lemma {:induction false} AllOvertake(cfg: Config, limit: nat, reach: (State, State) -> bool, at: nat -> State, i: nat)
    requires Closed(cfg, Busy, limit, reach) && limit >= 2 && i <= cfg.txBlocks
    requires forall k: nat :: at(k) == State(Stocked(cfg.txBlocks, 1, k), Overtaken(cfg.txBlocks, k))
    ensures reach(at(0), at(i))
    decreases i
  {
    if i > 0 {
      AllOvertake(cfg, limit, reach, at, i - 1);
      Overtakes(cfg, limit, reach, i, at(i - 1), at(i));
      Via(cfg, Busy, limit, reach, at(0), at(i - 1), at(i));
    }
  }

  /** One packet comes and goes, up to the clearing of the flag. */
  lemma FreeWaits(cfg: Config, limit: nat, reach: (State, State) -> bool)
    requires Closed(cfg, Busy, limit, reach) && limit >= 1 && cfg.txBlocks >= 3
    ensures reach(Init(), State(Stocked(cfg.txBlocks, 1, 0), Overtaken(cfg.txBlocks, 0)))
  {
    var s0 := Init();
    var g, none := s0.shared, map[];
    var g1 := g.(txAllocated := 1, heap := {0});
    var g2 := g.(heap := {0});
    var s1 := With(g1, none, 0, Hold(0, TxDataOps));
    CountEmpty(Busy);
    TxCallIsAlone(cfg, g, false, REQUEST, L.Some(0));
    assert {} + {0} == {0};
    CallIsRun(cfg, Busy, limit, reach, s0, Alloc(0, TxEntry(false, REQUEST), L.Some(0)));
    assert DoCall(cfg, s0, Alloc(0, TxEntry(false, REQUEST), L.Some(0))) == s1;
    WaitsFrom(cfg, limit, reach, g, g1, g2);
    Via(cfg, Busy, limit, reach, s0, s1, With(g, none, 0, DataResume));
    assert Overtaken(cfg.txBlocks, 0) == none[0 := DataResume];
    assert Stocked(cfg.txBlocks, 1, 0) == g;
  }

  lemma WaitsFrom(cfg: Config, limit: nat, reach: (State, State) -> bool, g: Shared, g1: Shared, g2: Shared)
    requires Closed(cfg, Busy, limit, reach) && limit >= 1 && cfg.txBlocks >= 3
    requires g.txAllocated == 0 && g.heap == {}
    requires g1 == g.(txAllocated := 1, heap := {0}) && g2 == g.(heap := {0})
    ensures reach(With(g1, map[], 0, Hold(0, TxDataOps)), With(g, map[], 0, DataResume))
  {
    Frees(cfg, limit, reach, g1, g2);
    Reads(cfg, limit, reach, g2, g);
    Via(cfg, Busy, limit, reach, With(g1, map[], 0, Hold(0, TxDataOps)), With(g2, map[], 0, DataHeap(0)),
        With(g, map[], 0, DataResume));
  }

  lemma Frees(cfg: Config, limit: nat, reach: (State, State) -> bool, g: Shared, g': Shared)
    requires Closed(cfg, Busy, limit, reach) && limit >= 1 && g' == g.(txAllocated := g.txAllocated - 1)
    ensures reach(With(g, map[], 0, Hold(0, TxDataOps)), With(g', map[], 0, DataHeap(0)))
  {
    CountEmpty(Busy);
    Goes(cfg, Busy, limit, reach, g, map[], 0, Hold(0, TxDataOps), QUIET, g, DataSub(0));
    Goes(cfg, Busy, limit, reach, g, map[], 0, DataSub(0), QUIET, g', DataHeap(0));
    Via(cfg, Busy, limit, reach, With(g, map[], 0, Hold(0, TxDataOps)), With(g, map[], 0, DataSub(0)),
        With(g', map[], 0, DataHeap(0)));
  }

  lemma Reads(cfg: Config, limit: nat, reach: (State, State) -> bool, g: Shared, g': Shared)
    requires Closed(cfg, Busy, limit, reach) && limit >= 1 && g' == g.(heap := g.heap - {0})
    requires g.txAllocated < cfg.UnpauseThreshold()
    ensures reach(With(g, map[], 0, DataHeap(0)), With(g', map[], 0, DataResume))
  {
    CountEmpty(Busy);
    Goes(cfg, Busy, limit, reach, g, map[], 0, DataHeap(0), QUIET, g', DataRead);
    Goes(cfg, Busy, limit, reach, g', map[], 0, DataRead, QUIET, g', DataResume);
    Via(cfg, Busy, limit, reach, With(g, map[], 0, DataHeap(0)), With(g', map[], 0, DataRead),
        With(g', map[], 0, DataResume));
  }

  /** The free goes on and clears the flag of the full pool. */
  lemma Clears(cfg: Config, limit: nat, reach: (State, State) -> bool, g: Shared, acts: map<nat, Stage>)
    requires Closed(cfg, Busy, limit, reach) && limit >= 1
    requires 0 !in acts && Count(acts, Busy) == 0 && g.paused
    ensures reach(With(g, acts, 0, DataResume),
                  State(g.(paused := false, flips := g.flips + 1, callbacks := g.callbacks + 1), acts))
  {
    var g1 := g.(paused := false, flips := g.flips + 1);
    var g2 := g1.(callbacks := g.callbacks + 1);
    Goes(cfg, Busy, limit, reach, g, acts, 0, DataResume, QUIET, g1, DataNotify);
    Ends(cfg, Busy, limit, reach, g1, acts, 0, DataNotify, QUIET, g2);
    Via(cfg, Busy, limit, reach, With(g, acts, 0, DataResume), With(g1, acts, 0, DataNotify), State(g2, acts));
  }

  /** Full, idle and ready. */
  function Ready(n: nat): State {
    State(Pool(n, false, 1, n + 1, 2), Line(n + 1, 1, n + 1))
  }

  lemma ClearsFull(cfg: Config, limit: nat, reach: (State, State) -> bool, x: State, y: State)
    requires Closed(cfg, Busy, limit, reach) && limit >= 1
    requires x == State(Stocked(cfg.txBlocks, 1, cfg.txBlocks), Overtaken(cfg.txBlocks, cfg.txBlocks))
    requires y == Ready(cfg.txBlocks)
    ensures reach(x, y)
  {
    var n := cfg.txBlocks;
    var acts := Line(n + 1, 1, n + 1);
    assert Members(acts, Busy) == {};
    Clears(cfg, limit, reach, Stocked(n, 1, n), acts);
  }

  lemma ReadyReached(cfg: Config, limit: nat, reach: (State, State) -> bool, at: nat -> State, x: State, y: State)
    requires Closed(cfg, Busy, limit, reach) && limit >= 2 && cfg.txBlocks >= 3
    requires forall k: nat :: at(k) == State(Stocked(cfg.txBlocks, 1, k), Overtaken(cfg.txBlocks, k))
    requires x == Init() && y == Ready(cfg.txBlocks)
    ensures reach(x, y)
  {
    var b, c := at(0), at(cfg.txBlocks);
    assert reach(x, b) by { FreeWaits(cfg, limit, reach); }
    assert reach(b, c) by { AllOvertake(cfg, limit, reach, at, cfg.txBlocks); }
    assert reach(c, y) by { ClearsFull(cfg, limit, reach, c, y); }
    Via(cfg, Busy, limit, reach, x, b, c);
    Via(cfg, Busy, limit, reach, x, c, y);
  }

  /** For every pool of three or more blocks, two calls at a time can leave it full, idle and ready. */
  lemma FullAndReady(cfg: Config, limit: nat) returns (s: State)
    requires cfg.txBlocks >= 3 && limit >= 2
    ensures Reaches(cfg, Busy, limit, Init(), s) && Idle(s)
    ensures s.shared.txAllocated == cfg.txBlocks && FlowControlState(s.shared) == TxReady
  {
    var n := cfg.txBlocks;
    var reach := (x: State, y: State) => Reaches(cfg, Busy, limit, x, y);
    ReachesClosed(cfg, Busy, limit, reach);
    s := Ready(n);
    ReadyReached(cfg, limit, reach, (k: nat) => State(Stocked(n, 1, k), Overtaken(n, k)), Init(), s);
  }

  /** A full pool is paused in all idle states, exactly when calls do not overlap or the pool has
      one or two blocks. */
  lemma FullIsPausedIff(cfg: Config, limit: nat)
    ensures FullIsPaused(cfg, limit) <==> cfg.txBlocks >= 1 && (limit <= 1 || cfg.txBlocks <= 2)
  {
    if cfg.txBlocks == 0 {
      Same(cfg, Busy, limit, Init());
      assert Reaches(cfg, Busy, limit, Init(), Init());
    } else if limit <= 1 || cfg.txBlocks <= 2 {
      forall s: State | Reaches(cfg, Busy, limit, Init(), s) && Idle(s) && s.shared.txAllocated == cfg.txBlocks
        ensures FlowControlState(s.shared) == TxPaused
      {
        if limit <= 1 { OneAtATime(cfg, limit, s); } else { SmallPool(cfg, limit, s); }
      }
    } else {
      var s := FullAndReady(cfg, limit);
    }
  }
}
