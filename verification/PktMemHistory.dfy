/**
  Runs of the packet memory manager whose calls do not overlap.  Every sequence of calls is a run
  of the machine in PktMem, and along it the flow-control flag shows hysteresis: it is the
  two-threshold automaton on the history of the counter.
 */
module PktMemHistory {

  import opened PktMem
  import opened PktMemSafety
  import opened PktMemRuns
  import opened PktMemCalls
  import L = PacketLayout

  // ----- The two-threshold automaton -----

  /** Paused from the moment the count reaches `n` until it falls below n - 2. */
  function Automaton(counts: seq<int>, n: int): bool {
    if counts == [] then false
    else
      var c := counts[|counts| - 1];
      if c >= n then true else if c < n - 2 then false else Automaton(counts[..|counts| - 1], n)
  }

  /** In other words: the count has been full and has not been below n - 2 since. */
  lemma {:induction false} AutomatonMeaning(counts: seq<int>, n: int)
    ensures Automaton(counts, n) <==>
            exists i :: 0 <= i < |counts| && counts[i] >= n && forall j :: i <= j < |counts| ==> counts[j] >= n - 2
  {
    if counts != [] {
      var k := |counts| - 1;
      var c, rest := counts[k], counts[..k];
      if c >= n {
        assert counts[k] >= n && forall j :: k <= j < |counts| ==> counts[j] >= n - 2;
      } else if n - 2 <= c {
        AutomatonMeaning(rest, n);
        if Automaton(rest, n) {
          var i :| 0 <= i < |rest| && rest[i] >= n && forall j :: i <= j < |rest| ==> rest[j] >= n - 2;
          assert counts[i] >= n && forall j :: i <= j < |counts| ==> counts[j] >= n - 2 by {
            forall j | i <= j < |counts| ensures counts[j] >= n - 2 { if j < k { assert counts[j] == rest[j]; } }
          }
        }
        if exists i :: 0 <= i < |counts| && counts[i] >= n && forall j :: i <= j < |counts| ==> counts[j] >= n - 2 {
          var i :| 0 <= i < |counts| && counts[i] >= n && forall j :: i <= j < |counts| ==> counts[j] >= n - 2;
          assert rest[i] >= n && forall j :: i <= j < |rest| ==> rest[j] >= n - 2 by {
            forall j | i <= j < |rest| ensures rest[j] >= n - 2 { assert rest[j] == counts[j]; }
          }
        }
      }
    }
  }

  lemma AutomatonNext(counts: seq<int>, c: int, n: int)
    ensures Automaton(counts + [c], n) == if c >= n then true else if c < n - 2 then false else Automaton(counts, n)
  {
    assert (counts + [c])[..|counts|] == counts;
  }

  lemma AutomatonRepeats(counts: seq<int>, n: int)
    requires counts != []
    ensures Automaton(counts + [counts[|counts| - 1]], n) == Automaton(counts, n)
  {
    AutomatonNext(counts, counts[|counts| - 1], n);
  }

  // ----- Calls that do not overlap -----

  /** One call: an allocation by activity t, for which the heap would give `heap`, or the free of
      the packet that t holds. */
  datatype Call = Alloc(t: nat, entry: Stage, heap: L.Option<nat>) | Free(t: nat)

  /** No call is under way: every activity is a packet with its owner. */
  ghost predicate Idle(s: State) {
    forall t :: t in s.acts ==> Resting(s.acts[t])
  }

  predicate Callable(s: State, c: Call) {
    match c
    case Alloc(t, entry, heap) =>
      && t !in s.acts && (entry.TxEntry? || entry.RxEntry?)
      && (heap.Some? ==> heap.value !in s.shared.heap)
    case Free(t) => t in s.acts && Resting(s.acts[t])
  }

  /** Where the free function that a packet's ops point to starts. */
  function Freeing(st: Stage): Stage
    requires Resting(st)
  {
    match st
    case HoldTxBlock(b, _) => TxBlockFree(b)
    case HoldRxBlock(b, _) => RxBlockFree(b)
    case Hold(a, ops) =>
      match ops
      case TxDataOps => DataSub(a)
      case RxOps => RxSub(a)
      case PlainOps => PlainFree(a)
  }

  function DoCall(cfg: Config, s: State, c: Call): State
    requires Callable(s, c)
  {
    match c
    case Alloc(t, entry, heap) =>
      var (g, n) := Alone(cfg, s.shared, entry, heap);
      State(g, Put(s.acts, t, n))
    case Free(t) =>
      var (g, n) := Alone(cfg, s.shared, Freeing(s.acts[t]), L.None);
      State(g, Put(s.acts, t, n))
  }

  /** Packets with their owners are not of this kind. */
  ghost predicate OnlyCalls(call: Stage -> bool) {
    forall st: Stage :: Resting(st) ==> !call(st)
  }

  lemma IdleCount(s: State, call: Stage -> bool)
    requires Idle(s) && OnlyCalls(call)
    ensures Count(s.acts, call) == 0
  {
    assert Members(s.acts, call) == {};
  }

  /** A call is a run of the machine. */
  lemma CallIsRun(cfg: Config, call: Stage -> bool, limit: nat, reach: (State, State) -> bool, s: State, c: Call)
    requires Closed(cfg, call, limit, reach) && Count(s.acts, call) < limit && Callable(s, c)
    ensures reach(s, DoCall(cfg, s, c))
  {
    match c
    case Alloc(t, entry, heap) =>
      Starts(cfg, call, limit, reach, s.shared, s.acts, t, entry);
      AloneIsRun(cfg, call, limit, reach, s.shared, s.acts, t, entry, heap);
      Via(cfg, call, limit, reach, s, With(s.shared, s.acts, t, entry), DoCall(cfg, s, c));
    case Free(t) => FreeIsRun(cfg, call, limit, reach, s, t);
  }

  lemma FreeIsRun(cfg: Config, call: Stage -> bool, limit: nat, reach: (State, State) -> bool, s: State, t: nat)
    requires Closed(cfg, call, limit, reach) && Count(s.acts, call) < limit && Callable(s, Free(t))
    ensures reach(s, DoCall(cfg, s, Free(t)))
  {
    var g, rest, st := s.shared, s.acts - {t}, s.acts[t];
    CountApart(s.acts, t, call);
    assert rest[t := st] == s.acts;
    Goes(cfg, call, limit, reach, g, rest, t, st, Answer(false, L.None), g, Freeing(st));
    AloneIsRun(cfg, call, limit, reach, g, rest, t, Freeing(st), L.None);
    var (g', n) := Alone(cfg, g, Freeing(st), L.None);
    assert Put(rest, t, n) == Put(s.acts, t, n);
    Via(cfg, call, limit, reach, s, With(g, rest, t, Freeing(st)), DoCall(cfg, s, Free(t)));
  }

  lemma {:induction false} AloneRests(cfg: Config, g: Shared, st: Stage, heap: L.Option<nat>)
    requires !Resting(st)
    ensures var n := Alone(cfg, g, st, heap).1; n.Some? ==> Resting(n.value)
    decreases Rank(st)
  {
    var (g', n) := Step(cfg, g, st, AnswerFor(st, heap));
    AloneProgress(cfg, g, st, AnswerFor(st, heap));
    if n.Some? && !Resting(n.value) { AloneRests(cfg, g', n.value, heap); }
  }

  lemma CallRests(cfg: Config, s: State, c: Call)
    requires Idle(s) && Callable(s, c)
    ensures Idle(DoCall(cfg, s, c))
  {
    match c
    case Alloc(t, entry, heap) => AloneRests(cfg, s.shared, entry, heap);
    case Free(t) => AloneRests(cfg, s.shared, Freeing(s.acts[t]), L.None);
  }

  // ----- What a caller gets -----

  /** An allocation for transmission succeeds if and only if it is a command that the first free
      block takes, or there is room in the data pool and the heap gives memory; a command that no
      block takes is served by the data pool, and the block it tried goes to the end of its list. */
  lemma TxOutcome(cfg: Config, s: State, t: nat, command: bool, req: Request, heap: L.Option<nat>)
    requires Callable(s, Alloc(t, TxEntry(command, req), heap))
    ensures var g, s' := s.shared, DoCall(cfg, s, Alloc(t, TxEntry(command, req), heap));
            var g' := s'.shared;
            var block := command && g.txFree != []
                         && L.InitBuf(256, req.spaceAtStart, req.spaceAtEnd, req.metadata).Some?;
            var pool := g.txAllocated < cfg.txBlocks && heap.Some?;
            && (t in s'.acts <==> block || pool)
            && (block ==> s' == State(g.(txFree := g.txFree[1..]), s.acts[t := HoldTxBlock(g.txFree[0], req)]))
            && (!block && pool ==>
                  && s'.acts == s.acts[t := Hold(heap.value, TxDataOps)]
                  && g'.txAllocated == g.txAllocated + 1 && g'.heap == g.heap + {heap.value}
                  && (g'.paused <==> g.paused || g'.txAllocated == cfg.txBlocks))
            && (!block && !pool ==>
                  && s'.acts == s.acts && g'.txAllocated == g.txAllocated
                  && g'.heap == g.heap && g'.paused == g.paused)
            && (!block ==> g'.txFree == if command && g.txFree != [] then g.txFree[1..] + [g.txFree[0]] else g.txFree)
            && g'.rxAllocated == g.rxAllocated && g'.rxFree == g.rxFree
  {
    var g := s.shared;
    TxCallIsAlone(cfg, g, command, req, heap);
    assert s.acts - {t} == s.acts;
  }

  /** An allocation for reception: data succeeds if and only if the pool has room and the heap gives
      memory; a command if and only if the first free block takes it or the heap gives memory, which
      is then not counted. */
  lemma RxOutcome(cfg: Config, s: State, t: nat, command: bool, req: Request, heap: L.Option<nat>)
    requires Callable(s, Alloc(t, RxEntry(command, req), heap))
    ensures var g, s' := s.shared, DoCall(cfg, s, Alloc(t, RxEntry(command, req), heap));
            var g' := s'.shared;
            var block := command && g.rxFree != []
                         && L.InitBuf(1672, req.spaceAtStart, req.spaceAtEnd, req.metadata).Some?;
            var memory := (command || g.rxAllocated < cfg.rxBlocks) && heap.Some?;
            && (t in s'.acts <==> block || memory)
            && (block ==> s' == State(g.(rxFree := g.rxFree[1..]), s.acts[t := HoldRxBlock(g.rxFree[0], req)]))
            && (!block && memory ==>
                  && s'.acts == s.acts[t := Hold(heap.value, if command then PlainOps else RxOps)]
                  && g'.rxAllocated == g.rxAllocated + One(!command) && g'.heap == g.heap + {heap.value})
            && (!block && !memory ==>
                  s'.acts == s.acts && g'.rxAllocated == g.rxAllocated && g'.heap == g.heap)
            && (!block ==> g'.rxFree == if command && g.rxFree != [] then g.rxFree[1..] + [g.rxFree[0]] else g.rxFree)
            && g'.txAllocated == g.txAllocated && g'.txFree == g.txFree && g'.paused == g.paused
  {
    var g := s.shared;
    RxCallIsAlone(cfg, g, command, req, heap);
    assert s.acts - {t} == s.acts;
  }

  // ----- Hysteresis -----

  /** The thresholds, and the flag as the automaton gives it for the history of the counter. */
  ghost predicate Flow(cfg: Config, g: Shared, counts: seq<int>) {
    && 0 <= g.txAllocated <= cfg.txBlocks
    && (g.paused ==> cfg.txBlocks - 2 <= g.txAllocated)
    && (!g.paused && cfg.txBlocks > 0 ==> g.txAllocated <= cfg.txBlocks - 1)
    && counts != [] && counts[|counts| - 1] == g.txAllocated
    && (cfg.txBlocks > 0 ==> (g.paused <==> Automaton(counts, cfg.txBlocks)))
  }

  /** What holds between calls. */
  ghost predicate Between(cfg: Config, s: State, counts: seq<int>) {
    Inv(cfg, s) && Idle(s) && Flow(cfg, s.shared, counts)
  }

  lemma FlowSame(cfg: Config, g: Shared, g': Shared, counts: seq<int>)
    requires Flow(cfg, g, counts) && g'.txAllocated == g.txAllocated && g'.paused == g.paused
    ensures Flow(cfg, g', counts + [g'.txAllocated])
  {
    AutomatonRepeats(counts, cfg.txBlocks);
  }

  lemma FlowAlloc(cfg: Config, g: Shared, heap: L.Option<nat>, counts: seq<int>)
    requires Flow(cfg, g, counts)
    ensures var g' := DataAlloc(cfg, g, heap).0; Flow(cfg, g', counts + [g'.txAllocated])
  {
    var g' := DataAlloc(cfg, g, heap).0;
    if g.txAllocated >= cfg.txBlocks || heap.None? {
      FlowSame(cfg, g, g', counts);
    } else {
      AutomatonNext(counts, g'.txAllocated, cfg.txBlocks);
    }
  }

  lemma FlowFree(cfg: Config, g: Shared, a: nat, counts: seq<int>)
    requires Flow(cfg, g, counts) && g.txAllocated > 0
    ensures var g' := DataFree(cfg, g, a); Flow(cfg, g', counts + [g'.txAllocated])
  {
    AutomatonNext(counts, g.txAllocated - 1, cfg.txBlocks);
  }

  lemma FlowAllocCall(cfg: Config, g: Shared, entry: Stage, heap: L.Option<nat>, counts: seq<int>)
    requires Flow(cfg, g, counts) && (entry.TxEntry? || entry.RxEntry?)
    ensures var g' := Alone(cfg, g, entry, heap).0; Flow(cfg, g', counts + [g'.txAllocated])
  {
    if entry.TxEntry? {
      TxCallIsAlone(cfg, g, entry.command, entry.req, heap);
      var (free, block) := Taken(g.txFree, Fits(TxBlock(0, entry.req)));
      FlowAlloc(cfg, g, heap, counts);
      FlowAlloc(cfg, g.(txFree := free), heap, counts);
      FlowSame(cfg, g, g.(txFree := free), counts);
    } else {
      RxCallIsAlone(cfg, g, entry.command, entry.req, heap);
      FlowSame(cfg, g, RxCall(cfg, g, entry.command, entry.req, heap).0, counts);
    }
  }

  /** The frees of command blocks and of plain heap packets. */
  lemma OtherFreesAreAlone(cfg: Config, g: Shared, x: nat)
    ensures Alone(cfg, g, TxBlockFree(x), L.None) == (g.(txFree := g.txFree + [x]), L.None)
    ensures Alone(cfg, g, RxBlockFree(x), L.None) == (g.(rxFree := g.rxFree + [x]), L.None)
    ensures Alone(cfg, g, PlainFree(x), L.None) == (g.(heap := g.heap - {x}), L.None)
  {
    LastStep(cfg, g, TxBlockFree(x), L.None, g.(txFree := g.txFree + [x]), L.None);
    LastStep(cfg, g, RxBlockFree(x), L.None, g.(rxFree := g.rxFree + [x]), L.None);
    LastStep(cfg, g, PlainFree(x), L.None, g.(heap := g.heap - {x}), L.None);
  }

  /** What freeing a packet does to the structure. */
  function Freed(cfg: Config, g: Shared, p: Stage): Shared
    requires Resting(p)
  {
    match p
    case HoldTxBlock(b, _) => g.(txFree := g.txFree + [b])
    case HoldRxBlock(b, _) => g.(rxFree := g.rxFree + [b])
    case Hold(a, ops) =>
      match ops
      case TxDataOps => DataFree(cfg, g, a)
      case RxOps => RxFree(g, a)
      case PlainOps => g.(heap := g.heap - {a})
  }

  lemma FreedIsAlone(cfg: Config, g: Shared, p: Stage)
    requires Resting(p)
    ensures Alone(cfg, g, Freeing(p), L.None) == (Freed(cfg, g, p), L.None)
  {
    match p
    case HoldTxBlock(b, _) => OtherFreesAreAlone(cfg, g, b);
    case HoldRxBlock(b, _) => OtherFreesAreAlone(cfg, g, b);
    case Hold(a, ops) =>
      match ops
      case TxDataOps => DataFreeIsAlone(cfg, g, a);
      case RxOps => RxFreeIsAlone(cfg, g, a);
      case PlainOps => OtherFreesAreAlone(cfg, g, a);
  }

  lemma FlowFreeCall(cfg: Config, g: Shared, p: Stage, counts: seq<int>)
    requires Flow(cfg, g, counts) && Resting(p) && (Counted(p) ==> g.txAllocated > 0)
    ensures var g' := Freed(cfg, g, p); Flow(cfg, g', counts + [g'.txAllocated])
  {
    if p.Hold? && p.ops == TxDataOps {
      FlowFree(cfg, g, p.addr, counts);
    } else {
      FlowSame(cfg, g, Freed(cfg, g, p), counts);
    }
  }

  /** Every call keeps the invariants of the machine, the hysteresis and the automaton. */
  lemma CallKeeps(cfg: Config, s: State, c: Call, counts: seq<int>)
    requires Between(cfg, s, counts) && Callable(s, c)
    ensures var s' := DoCall(cfg, s, c); Between(cfg, s', counts + [s'.shared.txAllocated])
  {
    var reach := (x: State, y: State) => Reaches(cfg, Busy, 1, x, y);
    ReachesClosed(cfg, Busy, 1, reach);
    IdleCount(s, Busy);
    CallIsRun(cfg, Busy, 1, reach, s, c);
    InvReaches(cfg, Busy, 1, s, DoCall(cfg, s, c));
    CallRests(cfg, s, c);
    CallFlow(cfg, s, c, counts);
  }

  lemma CallFlow(cfg: Config, s: State, c: Call, counts: seq<int>)
    requires Between(cfg, s, counts) && Callable(s, c)
    ensures var g' := DoCall(cfg, s, c).shared; Flow(cfg, g', counts + [g'.txAllocated])
  {
    match c
    case Alloc(t, entry, heap) => FlowAllocCall(cfg, s.shared, entry, heap, counts);
    case Free(t) =>
      var p := s.acts[t];
      if Counted(p) { CountPositive(s.acts, t, Counted); }
      FreedIsAlone(cfg, s.shared, p);
      FlowFreeCall(cfg, s.shared, p, counts);
  }

  // ----- Sequences of calls -----

  predicate AllCallable(cfg: Config, s: State, calls: seq<Call>)
    decreases |calls|
  {
    calls == [] || (Callable(s, calls[0]) && AllCallable(cfg, DoCall(cfg, s, calls[0]), calls[1..]))
  }

  function DoCalls(cfg: Config, s: State, calls: seq<Call>): State
    requires AllCallable(cfg, s, calls)
    decreases |calls|
  {
    if calls == [] then s else DoCalls(cfg, DoCall(cfg, s, calls[0]), calls[1..])
  }

  /** The counter after every call. */
  function Counts(cfg: Config, s: State, calls: seq<Call>): seq<int>
    requires AllCallable(cfg, s, calls)
    decreases |calls|
  {
    if calls == [] then []
    else
      var s' := DoCall(cfg, s, calls[0]);
      [s'.shared.txAllocated] + Counts(cfg, s', calls[1..])
  }

  lemma FirstCall(cfg: Config, s: State, s': State, calls: seq<Call>, h: seq<int>)
    requires calls != [] && AllCallable(cfg, s, calls) && s' == DoCall(cfg, s, calls[0])
    ensures AllCallable(cfg, s', calls[1..]) && DoCalls(cfg, s, calls) == DoCalls(cfg, s', calls[1..])
    ensures h + Counts(cfg, s, calls) == h + [s'.shared.txAllocated] + Counts(cfg, s', calls[1..])
  {}

  /** A property of the state and the history that every call keeps, every sequence keeps. */
  lemma {:induction false} CallsKeepAll(cfg: Config, between: (State, seq<int>) -> bool, s: State, calls: seq<Call>,
                                        counts: seq<int>)
    requires forall x: State, c: Call, h: seq<int> {:trigger between(x, h), Callable(x, c)} ::
               between(x, h) && Callable(x, c) ==>
                 between(DoCall(cfg, x, c), h + [DoCall(cfg, x, c).shared.txAllocated])
    requires between(s, counts) && AllCallable(cfg, s, calls)
    ensures between(DoCalls(cfg, s, calls), counts + Counts(cfg, s, calls))
    decreases |calls|
  {
    if calls == [] {
      assert counts + [] == counts;
    } else {
      var s' := DoCall(cfg, s, calls[0]);
      var k, rest := s'.shared.txAllocated, Counts(cfg, s', calls[1..]);
      CallsKeepAll(cfg, between, s', calls[1..], counts + [k]);
      assert counts + [k] + rest == counts + ([k] + rest);
    }
  }

  lemma CallsKeep(cfg: Config, s: State, calls: seq<Call>, counts: seq<int>)
    requires Between(cfg, s, counts) && AllCallable(cfg, s, calls)
    ensures Between(cfg, DoCalls(cfg, s, calls), counts + Counts(cfg, s, calls))
  {
    var between := (x: State, h: seq<int>) => Between(cfg, x, h);
    forall x: State, c: Call, h: seq<int> | between(x, h) && Callable(x, c)
      ensures between(DoCall(cfg, x, c), h + [DoCall(cfg, x, c).shared.txAllocated])
    {
      CallKeeps(cfg, x, c, h);
    }
    CallsKeepAll(cfg, between, s, calls, counts);
  }

  lemma InitBetween(cfg: Config)
    ensures Between(cfg, Init(), [0])
  {
    InitInv(cfg);
  }

  predicate HeldData(st: Stage) { st.Hold? && st.ops == TxDataOps }

  lemma HeldCounted(s: State)
    requires Idle(s)
    ensures Count(s.acts, Counted) == Count(s.acts, HeldData)
  {
    assert Members(s.acts, Counted) == Members(s.acts, HeldData);
  }

  /** Hysteresis in every run whose calls do not overlap: the counter is the number of data packets
      with their owners; paused implies N - 2 <= allocated <= N, not paused allocated <= N - 1; and
      the flag is set if and only if the pool was full after some call and has not been below N - 2
      since. */
  lemma Hysteresis(cfg: Config, calls: seq<Call>)
    requires AllCallable(cfg, Init(), calls)
    ensures var s, counts := DoCalls(cfg, Init(), calls), [0] + Counts(cfg, Init(), calls);
            var n, k := cfg.txBlocks, s.shared.txAllocated;
            && k == Count(s.acts, HeldData) <= n
            && (s.shared.paused ==> n - 2 <= k)
            && (!s.shared.paused && n > 0 ==> k <= n - 1)
            && (n > 0 ==>
                  (s.shared.paused <==>
                   exists i :: 0 <= i < |counts| && counts[i] >= n
                               && forall j :: i <= j < |counts| ==> counts[j] >= n - 2))
  {
    var s, counts := DoCalls(cfg, Init(), calls), [0] + Counts(cfg, Init(), calls);
    InitBetween(cfg);
    CallsKeep(cfg, Init(), calls, [0]);
    HeldCounted(s);
    AutomatonMeaning(counts, cfg.txBlocks);
  }

  /** Such a run is a run of the machine with one call at a time. */
  lemma {:induction false} CallsAreRun(cfg: Config, call: Stage -> bool, limit: nat, s: State,
                                       calls: seq<Call>)
    requires limit >= 1 && OnlyCalls(call) && Idle(s) && AllCallable(cfg, s, calls)
    ensures Reaches(cfg, call, limit, s, DoCalls(cfg, s, calls))
    decreases |calls|
  {
    if calls == [] {
      Same(cfg, call, limit, s);
    } else {
      var s' := DoCall(cfg, s, calls[0]);
      var reach := (x: State, y: State) => Reaches(cfg, call, limit, x, y);
      ReachesClosed(cfg, call, limit, reach);
      IdleCount(s, call);
      CallIsRun(cfg, call, limit, reach, s, calls[0]);
      CallRests(cfg, s, calls[0]);
      CallsAreRun(cfg, call, limit, s', calls[1..]);
      Transitive(cfg, call, limit, s, s', DoCalls(cfg, s, calls));
    }
  }
}
