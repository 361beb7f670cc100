/**
  The packet memory manager (framework/src/mmpktmem/mmpktmem_heap.c) as a state machine.

  Any number of allocation and free calls run at once.  One step is one atomic operation,
  critical section, heap call or callback of one call.  A packet's whole life is one
  activity: the call that allocates it, the time its owner holds it, and the call that frees
  it; so each packet is freed at most once.
 */
module PktMem {

  import L = PacketLayout
  import opened Words

  // ----- Data -----

  /** MMPKTMEM_TX_POOL_N_BLOCKS and MMPKTMEM_RX_POOL_N_BLOCKS. */
  datatype Config = Config(txBlocks: nat, rxBlocks: nat) {
    function UnpauseThreshold(): int { txBlocks - 2 }
    function PauseThreshold(): int { txBlocks - 1 }
  }

  const TX_COMMAND_BLOCK_SIZE: u32 := 256
  const RX_COMMAND_BLOCK_SIZE: u32 := 1672
  const COMMAND_BLOCKS: nat := 2

  datatype Request = Request(spaceAtStart: u32, spaceAtEnd: u32, metadata: u32)

  /** The free function that a heap packet's ops point to. */
  datatype Ops = TxDataOps | RxOps | PlainOps

  datatype Stage =
    // mmhal_wlan_alloc_mmpkt_for_tx
    | TxEntry(command: bool, req: Request)   // called
    | TxBlock(block: nat, req: Request)      // has a command block, about to lay it out
    | TxReturn(block: nat)                   // the layout failed, about to put the block back
    | TxAdd                                  // about to count itself
    | TxOver                                 // the pool is full, about to uncount itself
    | TxHeap                                 // admitted, about to ask the heap
    | TxUndo                                 // the heap refused, about to uncount itself
    | TxOps(addr: nat)                       // has memory, about to set the packet's ops
    | TxRead(addr: nat)                      // about to read the counter
    | TxPause(addr: nat)                     // about to exchange the flag to 1
    | TxNotify(addr: nat)                    // about to run the callback
    // mmhal_wlan_alloc_mmpkt_for_rx
    | RxEntry(command: bool, req: Request)
    | RxBlock(block: nat, req: Request)
    | RxReturn(block: nat)
    | RxFallback                             // no command block, about to ask the heap
    | RxAdd
    | RxOver
    | RxHeap
    | RxUndo
    | RxSetOps(addr: nat)
    // The packet is with its owner
    | HoldTxBlock(block: nat, req: Request)
    | HoldRxBlock(block: nat, req: Request)
    | Hold(addr: nat, ops: Ops)
    // tx_data_pool_pkt_free
    | DataSub(addr: nat)                     // about to uncount the packet
    | DataHeap(addr: nat)                    // about to give the memory back
    | DataRead                               // about to read the counter
    | DataResume                             // about to exchange the flag to 0
    | DataNotify                             // about to run the callback
    // The other free functions
    | TxBlockFree(block: nat)
    | RxBlockFree(block: nat)
    | RxSub(addr: nat)
    | RxHeapFree(addr: nat)
    | PlainFree(addr: nat)

  /** The static pktmem structure and the heap.  `flips` counts changes of the flag and
      `callbacks` the flow-control callbacks made. */
  datatype Shared = Shared(txAllocated: int, paused: bool, rxAllocated: int,
                           txFree: seq<nat>, rxFree: seq<nat>, heap: set<nat>,
                           flips: nat, callbacks: nat)

  datatype State = State(shared: Shared, acts: map<nat, Stage>)

  datatype FlowState = TxReady | TxPaused

  /** mmhal_wlan_pktmem_tx_flow_control_state */
  function FlowControlState(g: Shared): FlowState {
    if g.paused then TxPaused else TxReady
  }

  /** What a step is told from outside: whether mmpkt_init_buf accepts the block, and what
      the heap gives, an address that is not in use or nothing. */
  datatype Answer = Answer(fits: bool, heap: L.Option<nat>)

  /** What is left of the activity after a step: its next stage, or nothing. */
  type Next = L.Option<Stage>

  // ----- Steps -----

  /** mmpkt_init_buf on a command block. */
  function LayOut(size: u32, req: Request): L.Option<L.Layout> {
    L.InitBuf(size, req.spaceAtStart, req.spaceAtEnd, req.metadata)
  }

  /** Whether the block at hand takes the request. */
  predicate Fits(st: Stage) {
    match st
    case TxBlock(_, req) => LayOut(TX_COMMAND_BLOCK_SIZE, req).Some?
    case RxBlock(_, req) => LayOut(RX_COMMAND_BLOCK_SIZE, req).Some?
    case _ => false
  }

  /** One step of one activity. */
  function Step(cfg: Config, g: Shared, st: Stage, ans: Answer): (Shared, Next) {
    match st
    case TxEntry(command, req) =>
      if command && g.txFree != [] then
        (g.(txFree := g.txFree[1..]), L.Some(TxBlock(g.txFree[0], req)))
      else
        (g, L.Some(TxAdd))
    case TxBlock(b, req) =>
      (g, L.Some(if ans.fits then HoldTxBlock(b, req) else TxReturn(b)))
    case TxReturn(b) => (g.(txFree := g.txFree + [b]), L.Some(TxAdd))
    case TxAdd =>
      (g.(txAllocated := g.txAllocated + 1), L.Some(if g.txAllocated >= cfg.txBlocks then TxOver else TxHeap))
    case TxOver => (g.(txAllocated := g.txAllocated - 1), L.None)
    case TxHeap =>
      (match ans.heap
       case None => (g, L.Some(TxUndo))
       case Some(a) => (g.(heap := g.heap + {a}), L.Some(TxOps(a))))
    case TxUndo => (g.(txAllocated := g.txAllocated - 1), L.None)
    case TxOps(a) => (g, L.Some(TxRead(a)))
    case TxRead(a) =>
      (g, L.Some(if g.txAllocated > cfg.PauseThreshold() then TxPause(a) else Hold(a, TxDataOps)))
    case TxPause(a) =>
      if g.paused then (g, L.Some(Hold(a, TxDataOps)))
      else (g.(paused := true, flips := g.flips + 1), L.Some(TxNotify(a)))
    case TxNotify(a) => (g.(callbacks := g.callbacks + 1), L.Some(Hold(a, TxDataOps)))

    case RxEntry(command, req) =>
      if command then
        if g.rxFree != [] then
          (g.(rxFree := g.rxFree[1..]), L.Some(RxBlock(g.rxFree[0], req)))
        else
          (g, L.Some(RxFallback))
      else
        (g, L.Some(RxAdd))
    case RxBlock(b, req) =>
      (g, L.Some(if ans.fits then HoldRxBlock(b, req) else RxReturn(b)))
    case RxReturn(b) => (g.(rxFree := g.rxFree + [b]), L.Some(RxFallback))
    case RxFallback =>
      (match ans.heap
       case None => (g, L.None)
       case Some(a) => (g.(heap := g.heap + {a}), L.Some(Hold(a, PlainOps))))
    case RxAdd =>
      (g.(rxAllocated := g.rxAllocated + 1),
       L.Some(if g.rxAllocated >= cfg.rxBlocks then RxOver else RxHeap))
    case RxOver => (g.(rxAllocated := g.rxAllocated - 1), L.None)
    case RxHeap =>
      (match ans.heap
       case None => (g, L.Some(RxUndo))
       case Some(a) => (g.(heap := g.heap + {a}), L.Some(RxSetOps(a))))
    case RxUndo => (g.(rxAllocated := g.rxAllocated - 1), L.None)
    case RxSetOps(a) => (g, L.Some(Hold(a, RxOps)))

    case HoldTxBlock(b, _) => (g, L.Some(TxBlockFree(b)))
    case HoldRxBlock(b, _) => (g, L.Some(RxBlockFree(b)))
    case Hold(a, ops) =>
      (g, L.Some(match ops
                 case TxDataOps => DataSub(a)
                 case RxOps => RxSub(a)
                 case PlainOps => PlainFree(a)))

    case DataSub(a) => (g.(txAllocated := g.txAllocated - 1), L.Some(DataHeap(a)))
    case DataHeap(a) => (g.(heap := g.heap - {a}), L.Some(DataRead))
    case DataRead =>
      (g, if g.txAllocated < cfg.UnpauseThreshold() then L.Some(DataResume) else L.None)
    case DataResume =>
      if g.paused then (g.(paused := false, flips := g.flips + 1), L.Some(DataNotify))
      else (g, L.None)
    case DataNotify => (g.(callbacks := g.callbacks + 1), L.None)
    case TxBlockFree(b) => (g.(txFree := g.txFree + [b]), L.None)
    case RxBlockFree(b) => (g.(rxFree := g.rxFree + [b]), L.None)
    case RxSub(a) => (g.(rxAllocated := g.rxAllocated - 1), L.Some(RxHeapFree(a)))
    case RxHeapFree(a) => (g.(heap := g.heap - {a}), L.None)
    case PlainFree(a) => (g.(heap := g.heap - {a}), L.None)
  }

  /** A new call, or the next step of an activity under way. */
  datatype Label = Begin(t: nat, st: Stage) | Move(t: nat, ans: Answer)

  predicate Enabled(s: State, l: Label) {
    match l
    case Begin(t, st) => t !in s.acts && (st.TxEntry? || st.RxEntry?)
    case Move(t, ans) =>
      && t in s.acts
      && ans.fits == Fits(s.acts[t])
      && (ans.heap.Some? ==> ans.heap.value !in s.shared.heap)
  }

  function Put(acts: map<nat, Stage>, t: nat, n: Next): map<nat, Stage> {
    match n
    case Some(st) => acts[t := st]
    case None => acts - {t}
  }

  function Apply(cfg: Config, s: State, l: Label): State
    requires Enabled(s, l)
  {
    match l
    case Begin(t, st) => State(s.shared, s.acts[t := st])
    case Move(t, ans) =>
      var (g, n) := Step(cfg, s.shared, s.acts[t], ans);
      State(g, Put(s.acts, t, n))
  }

  /** mmhal_wlan_pktmem_init */
  function Init(): State {
    State(Shared(0, false, 0, [0, 1], [0, 1], {}, 0, 0), map[])
  }

  // ----- Counting activities -----

  function Members(acts: map<nat, Stage>, f: Stage -> bool): set<nat> {
    set t | t in acts && f(acts[t])
  }

  function Count(acts: map<nat, Stage>, f: Stage -> bool): nat {
    |Members(acts, f)|
  }

  function One(b: bool): nat {
    if b then 1 else 0
  }

  function Was(acts: map<nat, Stage>, t: nat, f: Stage -> bool): bool {
    t in acts && f(acts[t])
  }

  function Will(n: Next, f: Stage -> bool): bool {
    n.Some? && f(n.value)
  }

  /** Everything but `t` is counted before and after a change to `t`. */
  lemma CountApart(acts: map<nat, Stage>, t: nat, f: Stage -> bool)
    ensures Count(acts, f) == Count(acts - {t}, f) + One(Was(acts, t, f))
  {
    var all, rest := Members(acts, f), Members(acts - {t}, f);
    if Was(acts, t, f) {
      assert all == rest + {t};
    } else {
      assert all == rest;
    }
  }

  /** A step moves one activity, so a count changes by that activity alone. */
  lemma CountPut(acts: map<nat, Stage>, t: nat, n: Next, f: Stage -> bool)
    ensures Count(Put(acts, t, n), f) == Count(acts, f) - One(Was(acts, t, f)) + One(Will(n, f))
  {
    CountApart(acts, t, f);
    CountApart(Put(acts, t, n), t, f);
    assert Put(acts, t, n) - {t} == acts - {t};
  }

  lemma CountEmpty(f: Stage -> bool)
    ensures Count(map[], f) == 0
  {
    assert Members(map[], f) == {};
  }

  lemma CountSubset(acts: map<nat, Stage>, f: Stage -> bool, g: Stage -> bool)
    requires forall t :: t in acts && f(acts[t]) ==> g(acts[t])
    ensures Count(acts, f) <= Count(acts, g)
  {
    SubsetSize(Members(acts, f), Members(acts, g));
  }

  lemma {:induction false} SubsetSize(a: set<nat>, b: set<nat>)
    requires a <= b
    ensures |a| <= |b|
    decreases a
  {
    if a != {} {
      var x :| x in a;
      SubsetSize(a - {x}, b - {x});
    }
  }

  /** Activities counted by `f` are counted by `g` or by `h`. */
  lemma CountSplit(acts: map<nat, Stage>, f: Stage -> bool, g: Stage -> bool, h: Stage -> bool)
    requires forall t :: t in acts && f(acts[t]) ==> g(acts[t]) || h(acts[t])
    ensures Count(acts, f) <= Count(acts, g) + Count(acts, h)
  {
    var b, c := Members(acts, g), Members(acts, h);
    SubsetSize(Members(acts, f), b + c);
    assert |b + c| <= |b| + |c| by {
      assert b + c == b + (c - b);
      SubsetSize(c - b, c);
    }
  }

  // ----- Classes of stages -----

  /** Counted in tx_data_pool_allocated. */
  predicate Counted(st: Stage) {
    st.TxOver? || Admitted(st)
  }

  /** Admitted to the data pool. */
  predicate Admitted(st: Stage) {
    st.TxHeap? || st.TxUndo? || HasPacket(st)
  }

  /** Counted, and with a data-pool packet in existence. */
  predicate HasPacket(st: Stage) {
    st.TxOps? || st.TxRead? || st.TxPause? || st.TxNotify? || (st.Hold? && st.ops == TxDataOps) || st.DataSub?
  }

  /** An allocation that is counted and has no packet. */
  predicate Early(st: Stage) {
    st.TxOver? || st.TxHeap? || st.TxUndo?
  }

  /** Inside mmhal_wlan_alloc_mmpkt_for_tx. */
  predicate InTxAlloc(st: Stage) {
    st.TxEntry? || st.TxBlock? || st.TxReturn? || st.TxAdd? || Early(st)
    || st.TxOps? || st.TxRead? || st.TxPause? || st.TxNotify?
  }

  predicate CountedRx(st: Stage) {
    st.RxOver? || AdmittedRx(st)
  }

  predicate AdmittedRx(st: Stage) {
    st.RxHeap? || st.RxUndo? || st.RxSetOps? || (st.Hold? && st.ops == RxOps) || st.RxSub?
  }

  /** About to run a flow-control callback. */
  predicate Notifying(st: Stage) {
    st.TxNotify? || st.DataNotify?
  }

  predicate HasTxBlock(b: nat, st: Stage) {
    match st
    case TxBlock(c, _) => b == c
    case TxReturn(c) => b == c
    case HoldTxBlock(c, _) => b == c
    case TxBlockFree(c) => b == c
    case _ => false
  }

  predicate HasRxBlock(b: nat, st: Stage) {
    match st
    case RxBlock(c, _) => b == c
    case RxReturn(c) => b == c
    case HoldRxBlock(c, _) => b == c
    case RxBlockFree(c) => b == c
    case _ => false
  }

  predicate HasAddr(a: nat, st: Stage) {
    match st
    case TxOps(c) => a == c
    case TxRead(c) => a == c
    case TxPause(c) => a == c
    case TxNotify(c) => a == c
    case RxSetOps(c) => a == c
    case Hold(c, _) => a == c
    case DataSub(c) => a == c
    case DataHeap(c) => a == c
    case RxSub(c) => a == c
    case RxHeapFree(c) => a == c
    case PlainFree(c) => a == c
    case _ => false
  }

  /** A data-pool packet that exists, or a free that has not finished looking at the pool. */
  predicate Keeper(st: Stage) {
    HasPacket(st) || st.DataHeap? || st.DataRead? || st.DataResume?
  }

  // ----- What one step changes -----

  lemma StepTxCounter(cfg: Config, g: Shared, st: Stage, ans: Answer)
    ensures var (g', n) := Step(cfg, g, st, ans);
            g'.txAllocated == g.txAllocated - One(Counted(st)) + One(Will(n, Counted))
  {}

  lemma StepRxCounter(cfg: Config, g: Shared, st: Stage, ans: Answer)
    ensures var (g', n) := Step(cfg, g, st, ans);
            g'.rxAllocated == g.rxAllocated - One(CountedRx(st)) + One(Will(n, CountedRx))
  {}

  lemma StepCallbacks(cfg: Config, g: Shared, st: Stage, ans: Answer)
    ensures var (g', n) := Step(cfg, g, st, ans);
            g'.flips - g'.callbacks == g.flips - g.callbacks - One(Notifying(st)) + One(Will(n, Notifying))
  {}

  lemma StepParity(cfg: Config, g: Shared, st: Stage, ans: Answer)
    requires g.paused <==> g.flips % 2 == 1
    ensures var (g', n) := Step(cfg, g, st, ans); g'.paused <==> g'.flips % 2 == 1
  {}

  /** A packet held in a command block was laid out there. */
  predicate LaidOut(st: Stage) {
    && (st.HoldTxBlock? ==> LayOut(TX_COMMAND_BLOCK_SIZE, st.req).Some?)
    && (st.HoldRxBlock? ==> LayOut(RX_COMMAND_BLOCK_SIZE, st.req).Some?)
  }

  lemma StepLaysOut(cfg: Config, g: Shared, st: Stage, ans: Answer)
    requires ans.fits == Fits(st)
    ensures var (g', n) := Step(cfg, g, st, ans); n.Some? ==> LaidOut(n.value)
  {
    if !st.TxBlock? && !st.RxBlock? { StepNoBlock(cfg, g, st, ans); }
  }

  lemma StepNoBlock(cfg: Config, g: Shared, st: Stage, ans: Answer)
    requires !st.TxBlock? && !st.RxBlock?
    ensures var (g', n) := Step(cfg, g, st, ans); n.Some? ==> !n.value.HoldTxBlock? && !n.value.HoldRxBlock?
  {}

  lemma StepAdmits(cfg: Config, g: Shared, st: Stage, ans: Answer)
    ensures var (g', n) := Step(cfg, g, st, ans);
            && (!Admitted(st) && Will(n, Admitted) ==> g.txAllocated < cfg.txBlocks)
            && (!AdmittedRx(st) && Will(n, AdmittedRx) ==> g.rxAllocated < cfg.rxBlocks)
  {}

  /** How often `b` is in the list. */
  function Occurs(b: nat, q: seq<nat>): nat {
    if q == [] then 0 else One(b == q[0]) + Occurs(b, q[1..])
  }

  lemma {:induction false} AddLast(q: seq<nat>, c: nat, b: nat)
    ensures Occurs(b, q + [c]) == Occurs(b, q) + One(b == c)
  {
    if q != [] {
      assert (q + [c])[1..] == q[1..] + [c];
      AddLast(q[1..], c, b);
    }
  }

  predicate MovesTxBlock(st: Stage) {
    st.TxEntry? || st.TxBlock? || st.TxReturn? || st.HoldTxBlock? || st.TxBlockFree?
  }

  lemma StepTxBlocksElsewhere(cfg: Config, g: Shared, st: Stage, ans: Answer, b: nat)
    requires !MovesTxBlock(st)
    ensures var (g', n) := Step(cfg, g, st, ans);
            g'.txFree == g.txFree && !HasTxBlock(b, st) && !(n.Some? && HasTxBlock(b, n.value))
  {}

  lemma StepTxBlocks(cfg: Config, g: Shared, st: Stage, ans: Answer, b: nat)
    ensures var (g', n) := Step(cfg, g, st, ans);
            Occurs(b, g'.txFree) + One(n.Some? && HasTxBlock(b, n.value))
            == Occurs(b, g.txFree) + One(HasTxBlock(b, st))
  {
    if st.TxReturn? || st.TxBlockFree? {
      AddLast(g.txFree, st.block, b);
    } else if !MovesTxBlock(st) {
      StepTxBlocksElsewhere(cfg, g, st, ans, b);
    }
  }

  predicate MovesRxBlock(st: Stage) {
    st.RxEntry? || st.RxBlock? || st.RxReturn? || st.HoldRxBlock? || st.RxBlockFree?
  }

  lemma StepRxBlocksElsewhere(cfg: Config, g: Shared, st: Stage, ans: Answer, b: nat)
    requires !MovesRxBlock(st)
    ensures var (g', n) := Step(cfg, g, st, ans);
            g'.rxFree == g.rxFree && !HasRxBlock(b, st) && !(n.Some? && HasRxBlock(b, n.value))
  {}

  lemma StepRxBlocks(cfg: Config, g: Shared, st: Stage, ans: Answer, b: nat)
    ensures var (g', n) := Step(cfg, g, st, ans);
            Occurs(b, g'.rxFree) + One(n.Some? && HasRxBlock(b, n.value))
            == Occurs(b, g.rxFree) + One(HasRxBlock(b, st))
  {
    if st.RxReturn? || st.RxBlockFree? {
      AddLast(g.rxFree, st.block, b);
    } else if !MovesRxBlock(st) {
      StepRxBlocksElsewhere(cfg, g, st, ans, b);
    }
  }

  predicate UsesHeap(st: Stage) {
    st.TxHeap? || st.RxHeap? || st.RxFallback? || st.DataHeap? || st.RxHeapFree? || st.PlainFree?
  }

  lemma StepHeapElsewhere(cfg: Config, g: Shared, st: Stage, ans: Answer, a: nat)
    requires !UsesHeap(st)
    ensures var (g', n) := Step(cfg, g, st, ans);
            g'.heap == g.heap && (HasAddr(a, st) <==> n.Some? && HasAddr(a, n.value))
  {}

  lemma StepHeap(cfg: Config, g: Shared, st: Stage, ans: Answer, a: nat)
    requires ans.heap.Some? ==> ans.heap.value !in g.heap
    requires HasAddr(a, st) ==> a in g.heap
    ensures var (g', n) := Step(cfg, g, st, ans);
            One(a in g'.heap) + One(HasAddr(a, st)) == One(a in g.heap) + One(n.Some? && HasAddr(a, n.value))
  {
    if !UsesHeap(st) { StepHeapElsewhere(cfg, g, st, ans, a); }
  }
}
