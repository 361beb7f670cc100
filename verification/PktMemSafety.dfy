/**
  What holds in every state that the packet memory manager can reach, whatever the
  interleaving of its calls.
 */
module PktMemSafety {

  import opened PktMem
  import L = PacketLayout

  // ----- Runs -----

  /** Allocation calls for transmission that are under way. */
  function InFlight(s: State): nat {
    Count(s.acts, InTxAlloc)
  }

  ghost predicate StepTo(cfg: Config, call: Stage -> bool, limit: nat, s: State, s': State) {
    Count(s'.acts, call) <= limit && exists l: Label :: Enabled(s, l) && s' == Apply(cfg, s, l)
  }

  ghost function Stepping(cfg: Config, call: Stage -> bool, limit: nat): (State, State) -> bool {
    (s: State, s': State) => StepTo(cfg, call, limit, s, s')
  }

  /** n steps of a relation. */
  ghost predicate Chain(next: (State, State) -> bool, s: State, s': State, n: nat)
    decreases n
  {
    if n == 0 then s == s' else exists m: State :: next(s, m) && Chain(next, m, s', n - 1)
  }

  /** A run of `n` steps, never with more than `limit` activities of the kind `call`. */
  ghost predicate Run(cfg: Config, call: Stage -> bool, limit: nat, s: State, s': State, n: nat) {
    Chain(Stepping(cfg, call, limit), s, s', n)
  }

  /** An invariant of the steps is an invariant of the runs. */
  lemma {:induction false} Along(next: (State, State) -> bool, inv: State -> bool, s: State, s': State, n: nat)
    requires forall x: State, y: State :: inv(x) && next(x, y) ==> inv(y)
    requires inv(s) && Chain(next, s, s', n)
    ensures inv(s')
    decreases n
  {
    if n > 0 {
      var m: State :| next(s, m) && Chain(next, m, s', n - 1);
      Along(next, inv, m, s', n - 1);
    }
  }

  // ----- The invariants -----

  function HasTx(b: nat): Stage -> bool { st => HasTxBlock(b, st) }
  function HasRx(b: nat): Stage -> bool { st => HasRxBlock(b, st) }
  function Has(a: nat): Stage -> bool { st => HasAddr(a, st) }

  /** The counters are right, and the pools admit no more than their size. */
  ghost predicate Counters(cfg: Config, s: State) {
    && s.shared.txAllocated == Count(s.acts, Counted)
    && s.shared.rxAllocated == Count(s.acts, CountedRx)
    && Count(s.acts, Admitted) <= cfg.txBlocks
    && Count(s.acts, AdmittedRx) <= cfg.rxBlocks
  }

  /** Each command block is in its own free list or with one activity, and nowhere else. */
  ghost predicate Blocks(s: State) {
    && (forall b: nat :: Occurs(b, s.shared.txFree) + Count(s.acts, HasTx(b)) == One(b < COMMAND_BLOCKS))
    && (forall b: nat :: Occurs(b, s.shared.rxFree) + Count(s.acts, HasRx(b)) == One(b < COMMAND_BLOCKS))
  }

  /** Each address on the heap is with one activity. */
  ghost predicate HeapOwned(s: State) {
    forall a: nat :: One(a in s.shared.heap) == Count(s.acts, Has(a))
  }

  /** Callbacks made and callbacks due add up to the changes of the flag. */
  ghost predicate Callbacks(s: State) {
    && s.shared.flips == s.shared.callbacks + Count(s.acts, Notifying)
    && (s.shared.paused <==> s.shared.flips % 2 == 1)
  }

  /** Packets held in command blocks were accepted by mmpkt_init_buf. */
  ghost predicate Layouts(s: State) {
    forall t :: t in s.acts ==> LaidOut(s.acts[t])
  }

  ghost predicate Inv(cfg: Config, s: State) {
    Counters(cfg, s) && Blocks(s) && HeapOwned(s) && Callbacks(s) && Layouts(s)
  }

  /** The flag is never left set with nobody to clear it. */
  ghost predicate NotStuck(s: State) {
    s.shared.paused ==> Count(s.acts, Keeper) > 0
  }

  lemma InitInv(cfg: Config)
    ensures Inv(cfg, Init()) && NotStuck(Init())
  {
    CountEmpty(Counted);
    CountEmpty(CountedRx);
    CountEmpty(Admitted);
    CountEmpty(AdmittedRx);
    CountEmpty(Notifying);
    assert [0, 1][1..] == [1] && [1][1..] == [];
    forall b: nat
      ensures Occurs(b, [0, 1]) + Count(map[], HasTx(b)) == One(b < COMMAND_BLOCKS)
      ensures Occurs(b, [0, 1]) + Count(map[], HasRx(b)) == One(b < COMMAND_BLOCKS)
    {
      CountEmpty(HasTx(b));
      CountEmpty(HasRx(b));
      assert Occurs(b, [0, 1]) == One(b == 0) + Occurs(b, [1]);
    }
    forall a: nat
      ensures One(a in Init().shared.heap) == Count(map[], Has(a))
    {
      CountEmpty(Has(a));
    }
  }

  // ----- One step keeps them -----

  /** The activity that a label moves, and what becomes of it. */
  function Moved(cfg: Config, s: State, l: Label): (Shared, Next)
    requires Enabled(s, l)
  {
    match l
    case Begin(t, st) => (s.shared, L.Some(st))
    case Move(t, ans) => Step(cfg, s.shared, s.acts[t], ans)
  }

  lemma ApplyPuts(cfg: Config, s: State, l: Label, f: Stage -> bool)
    requires Enabled(s, l)
    ensures var (g, n) := Moved(cfg, s, l);
            && Apply(cfg, s, l).shared == g
            && Count(Apply(cfg, s, l).acts, f) == Count(s.acts, f) - One(Was(s.acts, l.t, f)) + One(Will(n, f))
  {
    CountPut(s.acts, l.t, Moved(cfg, s, l).1, f);
  }

  lemma CountersKept(cfg: Config, s: State, l: Label)
    requires Enabled(s, l) && Counters(cfg, s)
    ensures Counters(cfg, Apply(cfg, s, l))
  {
    ApplyPuts(cfg, s, l, Counted);
    ApplyPuts(cfg, s, l, CountedRx);
    ApplyPuts(cfg, s, l, Admitted);
    ApplyPuts(cfg, s, l, AdmittedRx);
    CountSubset(s.acts, Admitted, Counted);
    CountSubset(s.acts, AdmittedRx, CountedRx);
    if l.Move? {
      StepTxCounter(cfg, s.shared, s.acts[l.t], l.ans);
      StepRxCounter(cfg, s.shared, s.acts[l.t], l.ans);
      StepAdmits(cfg, s.shared, s.acts[l.t], l.ans);
    }
  }

  lemma BlocksKept(cfg: Config, s: State, l: Label)
    requires Enabled(s, l) && Blocks(s)
    ensures Blocks(Apply(cfg, s, l))
  {
    var s' := Apply(cfg, s, l);
    forall b: nat
      ensures Occurs(b, s'.shared.txFree) + Count(s'.acts, HasTx(b)) == One(b < COMMAND_BLOCKS)
      ensures Occurs(b, s'.shared.rxFree) + Count(s'.acts, HasRx(b)) == One(b < COMMAND_BLOCKS)
    {
      ApplyPuts(cfg, s, l, HasTx(b));
      ApplyPuts(cfg, s, l, HasRx(b));
      if l.Move? {
        StepTxBlocks(cfg, s.shared, s.acts[l.t], l.ans, b);
        StepRxBlocks(cfg, s.shared, s.acts[l.t], l.ans, b);
      }
    }
  }

  /** An activity is among those that a count counts. */
  lemma CountPositive(acts: map<nat, Stage>, t: nat, f: Stage -> bool)
    requires t in acts && f(acts[t])
    ensures Count(acts, f) > 0
  {
    assert t in Members(acts, f);
  }

  lemma HeapOwnedKept(cfg: Config, s: State, l: Label)
    requires Enabled(s, l) && HeapOwned(s)
    ensures HeapOwned(Apply(cfg, s, l))
  {
    var s' := Apply(cfg, s, l);
    forall a: nat
      ensures One(a in s'.shared.heap) == Count(s'.acts, Has(a))
    {
      ApplyPuts(cfg, s, l, Has(a));
      if l.Move? {
        if HasAddr(a, s.acts[l.t]) { CountPositive(s.acts, l.t, Has(a)); }
        StepHeap(cfg, s.shared, s.acts[l.t], l.ans, a);
      }
    }
  }

  lemma CallbacksKept(cfg: Config, s: State, l: Label)
    requires Enabled(s, l) && Callbacks(s)
    ensures Callbacks(Apply(cfg, s, l))
  {
    ApplyPuts(cfg, s, l, Notifying);
    if l.Move? {
      StepCallbacks(cfg, s.shared, s.acts[l.t], l.ans);
      StepParity(cfg, s.shared, s.acts[l.t], l.ans);
    }
  }

  lemma InvKept(cfg: Config, s: State, l: Label)
    requires Enabled(s, l) && Inv(cfg, s)
    ensures Inv(cfg, Apply(cfg, s, l))
  {
    CountersKept(cfg, s, l);
    BlocksKept(cfg, s, l);
    HeapOwnedKept(cfg, s, l);
    CallbacksKept(cfg, s, l);
    LayoutsKept(cfg, s, l);
  }

  lemma LayoutsKept(cfg: Config, s: State, l: Label)
    requires Enabled(s, l) && Layouts(s)
    ensures Layouts(Apply(cfg, s, l))
  {
    if l.Move? { StepLaysOut(cfg, s.shared, s.acts[l.t], l.ans); }
  }

  // ----- No stuck pause -----

  /** A step that ends a keeper clears the flag, or is a free that saw a full enough pool. */
  lemma StepKeeper(cfg: Config, g: Shared, st: Stage, ans: Answer)
    ensures var (g', n) := Step(cfg, g, st, ans);
            && (g'.paused && !g.paused ==> Will(n, Keeper))
            && (g'.paused && Keeper(st) && !Will(n, Keeper) ==>
                  st.DataRead? && n.None? && g.txAllocated >= cfg.UnpauseThreshold())
  {}

  /** A pool with more in it than allocations under way holds a packet. */
  lemma PacketExists(cfg: Config, s: State)
    requires Counters(cfg, s) && s.shared.txAllocated > InFlight(s)
    ensures Count(s.acts, HasPacket) > 0
  {
    CountSplit(s.acts, Counted, Early, HasPacket);
    CountSubset(s.acts, Early, InTxAlloc);
  }

  lemma NotStuckKept(cfg: Config, s: State, l: Label)
    requires Enabled(s, l) && Counters(cfg, s) && NotStuck(s)
    requires InFlight(s) < cfg.UnpauseThreshold()
    ensures NotStuck(Apply(cfg, s, l))
  {
    ApplyPuts(cfg, s, l, Keeper);
    if l.Move? {
      var st := s.acts[l.t];
      StepKeeper(cfg, s.shared, st, l.ans);
      if Keeper(st) { CountPositive(s.acts, l.t, Keeper); }
      if st.DataRead? && s.shared.txAllocated >= cfg.UnpauseThreshold() {
        PacketExists(cfg, s);
        ApplyPuts(cfg, s, l, HasPacket);
        assert Count(Apply(cfg, s, l).acts, HasPacket) > 0;
        CountSubset(Apply(cfg, s, l).acts, HasPacket, Keeper);
      }
    } else {
      assert !Keeper(l.st);
    }
  }

  // ----- Whole runs -----

  lemma InvStep(cfg: Config, call: Stage -> bool, limit: nat, s: State, m: State)
    requires Inv(cfg, s) && StepTo(cfg, call, limit, s, m)
    ensures Inv(cfg, m)
  {
    var l: Label :| Enabled(s, l) && m == Apply(cfg, s, l);
    InvKept(cfg, s, l);
  }

  /** What the no-stuck-pause argument carries along a run. */
  ghost predicate Live(cfg: Config, limit: nat, s: State) {
    Counters(cfg, s) && NotStuck(s) && InFlight(s) <= limit
  }

  lemma LiveStep(cfg: Config, limit: nat, s: State, m: State)
    requires limit < cfg.UnpauseThreshold() && Live(cfg, limit, s) && StepTo(cfg, InTxAlloc, limit, s, m)
    ensures Live(cfg, limit, m)
  {
    var l: Label :| Enabled(s, l) && m == Apply(cfg, s, l);
    CountersKept(cfg, s, l);
    NotStuckKept(cfg, s, l);
  }

  /** Every reachable state satisfies the invariant, with any number of calls at once. */
  lemma Safety(cfg: Config, call: Stage -> bool, limit: nat, s: State, n: nat)
    requires Run(cfg, call, limit, Init(), s, n)
    ensures Inv(cfg, s)
  {
    var inv := (x: State) => Inv(cfg, x);
    InitInv(cfg);
    forall x: State, y: State | inv(x) && Stepping(cfg, call, limit)(x, y)
      ensures inv(y)
    {
      InvStep(cfg, call, limit, x, y);
    }
    Along(Stepping(cfg, call, limit), inv, Init(), s, n);
  }

  /** With fewer allocations at once than the unpause threshold, a set flag always has a
      packet or an unfinished free behind it: when they are gone the state is ready. */
  lemma NoStuckPause(cfg: Config, limit: nat, s: State, n: nat)
    requires limit < cfg.txBlocks - 2 && Run(cfg, InTxAlloc, limit, Init(), s, n)
    ensures Count(s.acts, Keeper) == 0 ==> FlowControlState(s.shared) == TxReady
    ensures s.acts == map[] ==> FlowControlState(s.shared) == TxReady
  {
    InitInv(cfg);
    CountEmpty(InTxAlloc);
    CountEmpty(Keeper);
    var live := (x: State) => Live(cfg, limit, x);
    forall x: State, y: State | live(x) && Stepping(cfg, InTxAlloc, limit)(x, y)
      ensures live(y)
    {
      LiveStep(cfg, limit, x, y);
    }
    Along(Stepping(cfg, InTxAlloc, limit), live, Init(), s, n);
  }

  // ----- What the invariant says -----

  predicate OnHeapTx(st: Stage) {
    st.TxOps? || st.TxRead? || st.TxPause? || st.TxNotify? || (st.Hold? && st.ops == TxDataOps)
    || st.DataSub? || st.DataHeap?
  }

  predicate FreeingTx(st: Stage) { st.DataHeap? }
  predicate Rejected(st: Stage) { st.TxOver? }

  /** Counting and cap: the counter exceeds the pool by rejected calls only, memory exceeds
      it by frees under way only, and the assertion in tx_data_pool_pkt_free never fires. */
  lemma PoolBounds(cfg: Config, call: Stage -> bool, limit: nat, s: State, n: nat)
    requires Run(cfg, call, limit, Init(), s, n)
    ensures 0 <= s.shared.txAllocated <= cfg.txBlocks + Count(s.acts, Rejected)
    ensures Count(s.acts, OnHeapTx) <= cfg.txBlocks + Count(s.acts, FreeingTx)
    ensures forall t :: t in s.acts && s.acts[t].DataSub? ==> s.shared.txAllocated > 0
  {
    Safety(cfg, call, limit, s, n);
    CountSplit(s.acts, Counted, Rejected, Admitted);
    CountSplit(s.acts, OnHeapTx, FreeingTx, Admitted);
    forall t | t in s.acts && s.acts[t].DataSub?
      ensures s.shared.txAllocated > 0
    {
      CountPositive(s.acts, t, Counted);
    }
  }

  lemma CountOne(acts: map<nat, Stage>, t: nat, u: nat, f: Stage -> bool)
    requires Count(acts, f) <= 1 && t in acts && u in acts && f(acts[t]) && f(acts[u])
    ensures t == u
  {
    assert t != u ==> |{t, u}| == 2;
    SubsetSize({t, u}, Members(acts, f));
  }

  /** Each command block is in exactly one place: a block in use is in no free list and with
      no other activity. */
  lemma BlockOwner(cfg: Config, call: Stage -> bool, limit: nat, s: State, n: nat, t: nat, b: nat)
    requires Run(cfg, call, limit, Init(), s, n)
    requires t in s.acts && HasTxBlock(b, s.acts[t])
    ensures b < 2 && b !in s.shared.txFree
    ensures forall u :: u in s.acts && HasTxBlock(b, s.acts[u]) ==> u == t
  {
    Safety(cfg, call, limit, s, n);
    CountPositive(s.acts, t, HasTx(b));
    NotOccurs(b, s.shared.txFree);
    forall u | u in s.acts && HasTxBlock(b, s.acts[u])
      ensures u == t
    {
      CountOne(s.acts, t, u, HasTx(b));
    }
  }

  /** The same for the receive pool. */
  lemma RxBlockOwner(cfg: Config, call: Stage -> bool, limit: nat, s: State, n: nat, t: nat, b: nat)
    requires Run(cfg, call, limit, Init(), s, n)
    requires t in s.acts && HasRxBlock(b, s.acts[t])
    ensures b < 2 && b !in s.shared.rxFree
    ensures forall u :: u in s.acts && HasRxBlock(b, s.acts[u]) ==> u == t
  {
    Safety(cfg, call, limit, s, n);
    CountPositive(s.acts, t, HasRx(b));
    NotOccurs(b, s.shared.rxFree);
    forall u | u in s.acts && HasRxBlock(b, s.acts[u])
      ensures u == t
    {
      CountOne(s.acts, t, u, HasRx(b));
    }
  }

  lemma {:induction false} NotOccurs(b: nat, q: seq<nat>)
    ensures Occurs(b, q) == 0 <==> b !in q
  {
    if q != [] { NotOccurs(b, q[1..]); }
  }

  /** Once no activity has a command block, both free lists are whole again. */
  lemma BlocksReturned(cfg: Config, call: Stage -> bool, limit: nat, s: State, n: nat, b: nat)
    requires Run(cfg, call, limit, Init(), s, n) && b < 2
    requires forall t :: t in s.acts ==> !HasTxBlock(b, s.acts[t]) && !HasRxBlock(b, s.acts[t])
    ensures Occurs(b, s.shared.txFree) == 1 && Occurs(b, s.shared.rxFree) == 1
  {
    Safety(cfg, call, limit, s, n);
    assert Members(s.acts, HasTx(b)) == {};
    assert Members(s.acts, HasRx(b)) == {};
  }

  /** Memory on the heap belongs to one activity; what is freed is in use until then. */
  lemma HeapOwner(cfg: Config, call: Stage -> bool, limit: nat, s: State, n: nat, t: nat, a: nat)
    requires Run(cfg, call, limit, Init(), s, n) && t in s.acts && HasAddr(a, s.acts[t])
    ensures a in s.shared.heap
    ensures forall u :: u in s.acts && HasAddr(a, s.acts[u]) ==> u == t
  {
    Safety(cfg, call, limit, s, n);
    CountPositive(s.acts, t, Has(a));
    forall u | u in s.acts && HasAddr(a, s.acts[u])
      ensures u == t
    {
      CountOne(s.acts, t, u, Has(a));
    }
  }
}
