/**
  The calls of framework/src/mmpktmem/mmpktmem_heap.c when nothing interrupts them: each is a run
  of the machine in PktMem by one activity alone, and adds up to one change of the structure.
 */
module PktMemCalls {

  import opened PktMem
  import opened PktMemSafety
  import opened PktMemRuns
  import L = PacketLayout

  // ----- One activity alone -----

  predicate Resting(st: Stage) {
    st.Hold? || st.HoldTxBlock? || st.HoldRxBlock?
  }

  /** A call is under way. */
  predicate Busy(st: Stage) { !Resting(st) }

  /** How many steps an activity can still take before it rests or ends. */
  function Rank(st: Stage): nat {
    match st
    case TxEntry(_, _) => 10
    case TxBlock(_, _) => 9
    case TxReturn(_) => 8
    case TxAdd => 7
    case TxHeap => 6
    case TxOps(_) => 5
    case TxRead(_) => 4
    case TxPause(_) => 3
    case TxNotify(_) => 2
    case RxEntry(_, _) => 10
    case RxBlock(_, _) => 9
    case RxReturn(_) => 8
    case RxFallback => 7
    case RxAdd => 7
    case RxHeap => 6
    case RxSetOps(_) => 5
    case DataSub(_) => 5
    case DataHeap(_) => 4
    case DataRead => 3
    case DataResume => 2
    case RxSub(_) => 2
    case _ => 1
  }

  /** Before the heap has been asked. */
  predicate Asking(st: Stage) {
    st.TxEntry? || st.TxBlock? || st.TxReturn? || st.TxAdd? || st.TxHeap?
    || st.RxEntry? || st.RxBlock? || st.RxReturn? || st.RxFallback? || st.RxAdd? || st.RxHeap?
  }

  /** The answer that a stage gets when the heap would give `heap`. */
  function AnswerFor(st: Stage, heap: L.Option<nat>): Answer {
    Answer(Fits(st), if st.TxHeap? || st.RxHeap? || st.RxFallback? then heap else L.None)
  }

  lemma AloneProgress(cfg: Config, g: Shared, st: Stage, ans: Answer)
    requires !Resting(st)
    ensures var (g', n) := Step(cfg, g, st, ans);
            n.Some? && !Resting(n.value) ==>
              && Rank(n.value) < Rank(st)
              && (Asking(n.value) ==> Asking(st) && g'.heap == g.heap)
  {}

  /** What becomes of the structure and of an activity that runs with no other in between. */
  function Alone(cfg: Config, g: Shared, st: Stage, heap: L.Option<nat>): (Shared, Next)
    requires !Resting(st)
    decreases Rank(st)
  {
    AloneProgress(cfg, g, st, AnswerFor(st, heap));
    var (g', n) := Step(cfg, g, st, AnswerFor(st, heap));
    if n.None? || Resting(n.value) then (g', n) else Alone(cfg, g', n.value, heap)
  }

  /** Running alone is a run of the machine, whatever the other activities are. */
  lemma {:induction false} AloneIsRun(cfg: Config, call: Stage -> bool, limit: nat, reach: (State, State) -> bool,
                                      g: Shared, acts: map<nat, Stage>, t: nat, st: Stage, heap: L.Option<nat>)
    requires Closed(cfg, call, limit, reach)
    requires !Resting(st) && t !in acts && Count(acts, call) < limit
    requires Asking(st) && heap.Some? ==> heap.value !in g.heap
    ensures var (g', n) := Alone(cfg, g, st, heap); reach(With(g, acts, t, st), State(g', Put(acts, t, n)))
    decreases Rank(st)
  {
    var ans := AnswerFor(st, heap);
    var (g', n) := Step(cfg, g, st, ans);
    AloneProgress(cfg, g, st, ans);
    if n.None? {
      Ends(cfg, call, limit, reach, g, acts, t, st, ans, g');
      assert Put(acts, t, n) == acts;
    } else {
      Goes(cfg, call, limit, reach, g, acts, t, st, ans, g', n.value);
      if !Resting(n.value) {
        AloneIsRun(cfg, call, limit, reach, g', acts, t, n.value, heap);
        var (g2, n2) := Alone(cfg, g', n.value, heap);
        Via(cfg, call, limit, reach, With(g, acts, t, st), With(g', acts, t, n.value), State(g2, Put(acts, t, n2)));
      }
    }
  }

  // ----- Whole calls as single changes of the structure -----

  /** Setting the flag, with the callback when it changes. */
  function SetFlag(g: Shared, paused: bool): Shared {
    if g.paused == paused then g
    else g.(paused := paused, flips := g.flips + 1, callbacks := g.callbacks + 1)
  }

  /** An allocation from the data pool. */
  function DataAlloc(cfg: Config, g: Shared, heap: L.Option<nat>): (Shared, Next) {
    if g.txAllocated >= cfg.txBlocks || heap.None? then (g, L.None)
    else
      var g1 := g.(txAllocated := g.txAllocated + 1, heap := g.heap + {heap.value});
      (if g1.txAllocated > cfg.PauseThreshold() then SetFlag(g1, true) else g1,
       L.Some(Hold(heap.value, TxDataOps)))
  }

  /** The free of a data packet. */
  function DataFree(cfg: Config, g: Shared, a: nat): Shared {
    var g1 := g.(txAllocated := g.txAllocated - 1, heap := g.heap - {a});
    if g1.txAllocated < cfg.UnpauseThreshold() then SetFlag(g1, false) else g1
  }

  lemma OneStep(cfg: Config, g: Shared, st: Stage, heap: L.Option<nat>, g': Shared, st': Stage)
    requires !Resting(st) && !Resting(st')
    requires Step(cfg, g, st, AnswerFor(st, heap)) == (g', L.Some(st'))
    ensures Alone(cfg, g, st, heap) == Alone(cfg, g', st', heap)
  {}

  lemma LastStep(cfg: Config, g: Shared, st: Stage, heap: L.Option<nat>, g': Shared, n: Next)
    requires !Resting(st) && (n.None? || Resting(n.value))
    requires Step(cfg, g, st, AnswerFor(st, heap)) == (g', n)
    ensures Alone(cfg, g, st, heap) == (g', n)
  {}

  lemma AloneRejected(cfg: Config, g: Shared, heap: L.Option<nat>)
    requires g.txAllocated >= cfg.txBlocks
    ensures Alone(cfg, g, TxAdd, heap) == (g, L.None)
  {
    var g1 := g.(txAllocated := g.txAllocated + 1);
    OneStep(cfg, g, TxAdd, heap, g1, TxOver);
    LastStep(cfg, g1, TxOver, heap, g, L.None);
  }

  lemma AloneRefused(cfg: Config, g: Shared)
    requires g.txAllocated < cfg.txBlocks
    ensures Alone(cfg, g, TxAdd, L.None) == (g, L.None)
  {
    var g1 := g.(txAllocated := g.txAllocated + 1);
    OneStep(cfg, g, TxAdd, L.None, g1, TxHeap);
    OneStep(cfg, g1, TxHeap, L.None, g1, TxUndo);
    LastStep(cfg, g1, TxUndo, L.None, g, L.None);
  }

  lemma AloneGets(cfg: Config, g: Shared, a: nat)
    requires g.txAllocated < cfg.txBlocks
    ensures Alone(cfg, g, TxAdd, L.Some(a))
         == Alone(cfg, g.(txAllocated := g.txAllocated + 1, heap := g.heap + {a}), TxRead(a), L.Some(a))
  {
    var g1 := g.(txAllocated := g.txAllocated + 1);
    OneStep(cfg, g, TxAdd, L.Some(a), g1, TxHeap);
    AloneGiven(cfg, g1, a);
  }

  lemma AloneGiven(cfg: Config, g: Shared, a: nat)
    ensures Alone(cfg, g, TxHeap, L.Some(a)) == Alone(cfg, g.(heap := g.heap + {a}), TxRead(a), L.Some(a))
  {
    var g1 := g.(heap := g.heap + {a});
    OneStep(cfg, g, TxHeap, L.Some(a), g1, TxOps(a));
    OneStep(cfg, g1, TxOps(a), L.Some(a), g1, TxRead(a));
  }

  lemma AloneReads(cfg: Config, g: Shared, a: nat, heap: L.Option<nat>)
    ensures Alone(cfg, g, TxRead(a), heap) ==
            (if g.txAllocated > cfg.PauseThreshold() then SetFlag(g, true) else g, L.Some(Hold(a, TxDataOps)))
  {
    var h := L.Some(Hold(a, TxDataOps));
    if g.txAllocated <= cfg.PauseThreshold() {
      LastStep(cfg, g, TxRead(a), heap, g, h);
    } else {
      OneStep(cfg, g, TxRead(a), heap, g, TxPause(a));
      if g.paused {
        LastStep(cfg, g, TxPause(a), heap, g, h);
      } else {
        var g1 := g.(paused := true, flips := g.flips + 1);
        OneStep(cfg, g, TxPause(a), heap, g1, TxNotify(a));
        LastStep(cfg, g1, TxNotify(a), heap, SetFlag(g, true), h);
      }
    }
  }

  /** An allocation that no other call interrupts. */
  lemma DataAllocIsAlone(cfg: Config, g: Shared, heap: L.Option<nat>)
    ensures Alone(cfg, g, TxAdd, heap) == DataAlloc(cfg, g, heap)
  {
    if g.txAllocated >= cfg.txBlocks {
      AloneRejected(cfg, g, heap);
    } else if heap.None? {
      AloneRefused(cfg, g);
    } else {
      AloneGets(cfg, g, heap.value);
      AloneReads(cfg, g.(txAllocated := g.txAllocated + 1, heap := g.heap + {heap.value}), heap.value, heap);
    }
  }

  lemma AloneResumes(cfg: Config, g: Shared)
    ensures Alone(cfg, g, DataRead, L.None)
         == (if g.txAllocated < cfg.UnpauseThreshold() then SetFlag(g, false) else g, L.None)
  {
    if g.txAllocated >= cfg.UnpauseThreshold() {
      LastStep(cfg, g, DataRead, L.None, g, L.None);
    } else {
      OneStep(cfg, g, DataRead, L.None, g, DataResume);
      if !g.paused {
        LastStep(cfg, g, DataResume, L.None, g, L.None);
      } else {
        var g1 := g.(paused := false, flips := g.flips + 1);
        OneStep(cfg, g, DataResume, L.None, g1, DataNotify);
        LastStep(cfg, g1, DataNotify, L.None, SetFlag(g, false), L.None);
      }
    }
  }

  /** A free that no other call interrupts. */
  lemma DataFreeIsAlone(cfg: Config, g: Shared, a: nat)
    ensures Alone(cfg, g, DataSub(a), L.None) == (DataFree(cfg, g, a), L.None)
  {
    var g0 := g.(txAllocated := g.txAllocated - 1);
    var g1 := g0.(heap := g.heap - {a});
    OneStep(cfg, g, DataSub(a), L.None, g0, DataHeap(a));
    OneStep(cfg, g0, DataHeap(a), L.None, g1, DataRead);
    AloneResumes(cfg, g1);
  }

  /** alloc_pkt_from_list: the first free block if the packet can be laid out in it; otherwise
      nothing, and the block goes to the end of the list. */
  function Taken(free: seq<nat>, fits: bool): (seq<nat>, L.Option<nat>) {
    if free == [] then (free, L.None)
    else if fits then (free[1..], L.Some(free[0]))
    else (free[1..] + [free[0]], L.None)
  }

  /** A transmit call: a command block if one takes the packet, else the data pool. */
  function TxCall(cfg: Config, g: Shared, command: bool, req: Request, heap: L.Option<nat>): (Shared, Next) {
    var (free, block) := Taken(g.txFree, Fits(TxBlock(0, req)));
    if !command then DataAlloc(cfg, g, heap)
    else if block.Some? then (g.(txFree := free), L.Some(HoldTxBlock(block.value, req)))
    else DataAlloc(cfg, g.(txFree := free), heap)
  }

  lemma TxCallIsAlone(cfg: Config, g: Shared, command: bool, req: Request, heap: L.Option<nat>)
    ensures Alone(cfg, g, TxEntry(command, req), heap) == TxCall(cfg, g, command, req, heap)
  {
    var e := TxEntry(command, req);
    if command && g.txFree != [] {
      var b, g1 := g.txFree[0], g.(txFree := g.txFree[1..]);
      OneStep(cfg, g, e, heap, g1, TxBlock(b, req));
      if Fits(TxBlock(b, req)) {
        LastStep(cfg, g1, TxBlock(b, req), heap, g1, L.Some(HoldTxBlock(b, req)));
      } else {
        OneStep(cfg, g1, TxBlock(b, req), heap, g1, TxReturn(b));
        var g2 := g1.(txFree := g1.txFree + [b]);
        OneStep(cfg, g1, TxReturn(b), heap, g2, TxAdd);
        DataAllocIsAlone(cfg, g2, heap);
      }
    } else {
      OneStep(cfg, g, e, heap, g, TxAdd);
      DataAllocIsAlone(cfg, g, heap);
    }
  }

  // ----- The receive side -----

  /** An allocation from the receive pool. */
  function RxAlloc(cfg: Config, g: Shared, heap: L.Option<nat>): (Shared, Next) {
    if g.rxAllocated >= cfg.rxBlocks || heap.None? then (g, L.None)
    else (g.(rxAllocated := g.rxAllocated + 1, heap := g.heap + {heap.value}), L.Some(Hold(heap.value, RxOps)))
  }

  /** A plain allocation from the heap. */
  function PlainAlloc(g: Shared, heap: L.Option<nat>): (Shared, Next) {
    if heap.None? then (g, L.None) else (g.(heap := g.heap + {heap.value}), L.Some(Hold(heap.value, PlainOps)))
  }

  /** A receive allocation that no other call interrupts leaves no trace when it is rejected
      or refused. */
  lemma RxAllocIsAlone(cfg: Config, g: Shared, heap: L.Option<nat>)
    ensures Alone(cfg, g, RxAdd, heap) == RxAlloc(cfg, g, heap)
  {
    var g1 := g.(rxAllocated := g.rxAllocated + 1);
    if g.rxAllocated >= cfg.rxBlocks {
      OneStep(cfg, g, RxAdd, heap, g1, RxOver);
      LastStep(cfg, g1, RxOver, heap, g, L.None);
    } else {
      OneStep(cfg, g, RxAdd, heap, g1, RxHeap);
      RxAsks(cfg, g1, heap);
    }
  }

  lemma RxAsks(cfg: Config, g: Shared, heap: L.Option<nat>)
    ensures Alone(cfg, g, RxHeap, heap) ==
            if heap.None? then (g.(rxAllocated := g.rxAllocated - 1), L.None)
            else (g.(heap := g.heap + {heap.value}), L.Some(Hold(heap.value, RxOps)))
  {
    match heap
    case None =>
      OneStep(cfg, g, RxHeap, heap, g, RxUndo);
      LastStep(cfg, g, RxUndo, heap, g.(rxAllocated := g.rxAllocated - 1), L.None);
    case Some(a) =>
      var g1 := g.(heap := g.heap + {a});
      OneStep(cfg, g, RxHeap, heap, g1, RxSetOps(a));
      LastStep(cfg, g1, RxSetOps(a), heap, g1, L.Some(Hold(a, RxOps)));
  }

  lemma PlainAllocIsAlone(cfg: Config, g: Shared, heap: L.Option<nat>)
    ensures Alone(cfg, g, RxFallback, heap) == PlainAlloc(g, heap)
  {
    var (g', n) := PlainAlloc(g, heap);
    LastStep(cfg, g, RxFallback, heap, g', n);
  }

  /** The free of a receive packet. */
  function RxFree(g: Shared, a: nat): Shared {
    g.(rxAllocated := g.rxAllocated - 1, heap := g.heap - {a})
  }

  lemma RxFreeIsAlone(cfg: Config, g: Shared, a: nat)
    ensures Alone(cfg, g, RxSub(a), L.None) == (RxFree(g, a), L.None)
  {
    var g1 := g.(rxAllocated := g.rxAllocated - 1);
    OneStep(cfg, g, RxSub(a), L.None, g1, RxHeapFree(a));
    LastStep(cfg, g1, RxHeapFree(a), L.None, g1.(heap := g.heap - {a}), L.None);
  }

  /** A receive call: a command block if one takes the packet, else the heap without counting;
      data always from the counted pool. */
  function RxCall(cfg: Config, g: Shared, command: bool, req: Request, heap: L.Option<nat>): (Shared, Next) {
    var (free, block) := Taken(g.rxFree, Fits(RxBlock(0, req)));
    if !command then RxAlloc(cfg, g, heap)
    else if block.Some? then (g.(rxFree := free), L.Some(HoldRxBlock(block.value, req)))
    else PlainAlloc(g.(rxFree := free), heap)
  }

  lemma RxCallIsAlone(cfg: Config, g: Shared, command: bool, req: Request, heap: L.Option<nat>)
    ensures Alone(cfg, g, RxEntry(command, req), heap) == RxCall(cfg, g, command, req, heap)
  {
    var e := RxEntry(command, req);
    if !command {
      OneStep(cfg, g, e, heap, g, RxAdd);
      RxAllocIsAlone(cfg, g, heap);
    } else if g.rxFree == [] {
      OneStep(cfg, g, e, heap, g, RxFallback);
      PlainAllocIsAlone(cfg, g, heap);
    } else {
      var b, g1 := g.rxFree[0], g.(rxFree := g.rxFree[1..]);
      OneStep(cfg, g, e, heap, g1, RxBlock(b, req));
      RxBlockAlone(cfg, g1, b, req, heap);
    }
  }

  lemma RxBlockAlone(cfg: Config, g: Shared, b: nat, req: Request, heap: L.Option<nat>)
    ensures Alone(cfg, g, RxBlock(b, req), heap) ==
            if Fits(RxBlock(0, req)) then (g, L.Some(HoldRxBlock(b, req)))
            else PlainAlloc(g.(rxFree := g.rxFree + [b]), heap)
  {
    if Fits(RxBlock(b, req)) {
      LastStep(cfg, g, RxBlock(b, req), heap, g, L.Some(HoldRxBlock(b, req)));
    } else {
      var g1 := g.(rxFree := g.rxFree + [b]);
      OneStep(cfg, g, RxBlock(b, req), heap, g, RxReturn(b));
      OneStep(cfg, g, RxReturn(b), heap, g1, RxFallback);
      PlainAllocIsAlone(cfg, g1, heap);
    }
  }
}
