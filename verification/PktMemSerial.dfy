/**
  Runs of the machine in PktMem with at most one call under way at a time.  Their idle states are
  exactly what sequences of whole calls lead to, so that the hysteresis holds in all of them.
 */
module PktMemSerial {

  import opened PktMem
  import opened PktMemSafety
  import opened PktMemRuns
  import opened PktMemCalls
  import opened PktMemHistory
  import L = PacketLayout

  /** A sequence of calls from the start leads to `s`. */
  ghost predicate Called(cfg: Config, s: State) {
    exists calls: seq<Call> :: AllCallable(cfg, Init(), calls) && DoCalls(cfg, Init(), calls) == s
  }

  lemma {:induction false} CallsThenOne(cfg: Config, s: State, calls: seq<Call>, c: Call)
    requires AllCallable(cfg, s, calls) && Callable(DoCalls(cfg, s, calls), c)
    ensures AllCallable(cfg, s, calls + [c])
    ensures DoCalls(cfg, s, calls + [c]) == DoCall(cfg, DoCalls(cfg, s, calls), c)
    decreases |calls|
  {
    if calls == [] {
      assert [] + [c] == [c] && [c][1..] == [];
    } else {
      assert (calls + [c])[1..] == calls[1..] + [c];
      CallsThenOne(cfg, DoCall(cfg, s, calls[0]), calls[1..], c);
    }
  }

  lemma CalledThenOne(cfg: Config, s: State, c: Call, s': State)
    requires Called(cfg, s) && Callable(s, c) && s' == DoCall(cfg, s, c)
    ensures Called(cfg, s')
  {
    var calls: seq<Call> :| AllCallable(cfg, Init(), calls) && DoCalls(cfg, Init(), calls) == s;
    CallsThenOne(cfg, Init(), calls, c);
  }

  // ----- A call that is under way -----

  /** The state in which activity t has run to the end of its call, with nothing in between. */
  function Completed(cfg: Config, s: State, t: nat, heap: L.Option<nat>): State
    requires t in s.acts && Busy(s.acts[t])
  {
    var (g, n) := Alone(cfg, s.shared, s.acts[t], heap);
    State(g, Put(s.acts, t, n))
  }

  /** What the heap may still answer. */
  predicate MayAnswer(g: Shared, st: Stage, heap: L.Option<nat>) {
    Asking(st) && heap.Some? ==> heap.value !in g.heap
  }

  /** Whatever the heap answers, completing the call of t leads where a sequence of calls leads. */
  ghost predicate Completes(cfg: Config, s: State, t: nat)
    requires t in s.acts && Busy(s.acts[t])
  {
    forall heap: L.Option<nat> :: MayAnswer(s.shared, s.acts[t], heap) ==> Called(cfg, Completed(cfg, s, t, heap))
  }

  /** Only activity t can be under way. */
  ghost predicate OthersRest(s: State, t: nat) {
    forall u :: u in s.acts && u != t ==> Resting(s.acts[u])
  }

  /** Where a run with one call at a time can be. */
  ghost predicate Serial(cfg: Config, s: State) {
    || (Idle(s) && Called(cfg, s))
    || (exists t :: t in s.acts && Busy(s.acts[t]) && OthersRest(s, t) && Completes(cfg, s, t))
  }

  predicate AsksHeap(st: Stage) {
    st.TxHeap? || st.RxHeap? || st.RxFallback?
  }

  /** A step uses no more of the answer than the running alone does. */
  lemma StepAnswer(cfg: Config, g: Shared, st: Stage, ans: Answer, heap: L.Option<nat>)
    requires ans.fits == Fits(st) && (AsksHeap(st) ==> heap == ans.heap)
    ensures Step(cfg, g, st, ans) == Step(cfg, g, st, AnswerFor(st, heap))
  {}

  /** Once the heap has been asked, what it would answer does not matter. */
  lemma {:induction false} AnswerPast(cfg: Config, g: Shared, st: Stage, heap: L.Option<nat>, other: L.Option<nat>)
    requires Busy(st) && !Asking(st)
    ensures Alone(cfg, g, st, heap) == Alone(cfg, g, st, other)
    decreases Rank(st)
  {
    var (g', n) := Step(cfg, g, st, AnswerFor(st, heap));
    assert AnswerFor(st, heap) == AnswerFor(st, other);
    AloneProgress(cfg, g, st, AnswerFor(st, heap));
    if n.Some? && Busy(n.value) { AnswerPast(cfg, g', n.value, heap, other); }
  }

  lemma AskedOnce(cfg: Config, g: Shared, st: Stage, ans: Answer)
    requires AsksHeap(st)
    ensures var n := Step(cfg, g, st, ans).1; n.Some? && Busy(n.value) ==> !Asking(n.value)
  {}

  // ----- Steps -----

  /** A call begins. */
  lemma BeginSerial(cfg: Config, s: State, t: nat, st: Stage, s': State)
    requires Idle(s) && Called(cfg, s) && Enabled(s, Begin(t, st)) && s' == Apply(cfg, s, Begin(t, st))
    ensures Serial(cfg, s')
  {
    forall heap: L.Option<nat> | MayAnswer(s'.shared, st, heap)
      ensures Called(cfg, Completed(cfg, s', t, heap))
    {
      var c := Alloc(t, st, heap);
      var n := Alone(cfg, s.shared, st, heap).1;
      assert Put(s'.acts, t, n) == Put(s.acts, t, n);
      CalledThenOne(cfg, s, c, Completed(cfg, s', t, heap));
    }
    assert Completes(cfg, s', t);
  }

  lemma StepFrees(cfg: Config, g: Shared, st: Stage, ans: Answer)
    requires Resting(st)
    ensures Step(cfg, g, st, ans) == (g, L.Some(Freeing(st)))
    ensures Busy(Freeing(st)) && !Asking(Freeing(st))
  {}

  /** The owner of a packet frees it. */
  lemma FreeSerial(cfg: Config, s: State, t: nat, ans: Answer, s': State)
    requires Idle(s) && Called(cfg, s) && Enabled(s, Move(t, ans)) && s' == Apply(cfg, s, Move(t, ans))
    ensures Serial(cfg, s')
  {
    var st := Freeing(s.acts[t]);
    StepFrees(cfg, s.shared, s.acts[t], ans);
    forall heap: L.Option<nat>
      ensures Called(cfg, Completed(cfg, s', t, heap))
    {
      AnswerPast(cfg, s.shared, st, heap, L.None);
      var n := Alone(cfg, s.shared, st, L.None).1;
      assert Put(s'.acts, t, n) == Put(s.acts, t, n);
      CalledThenOne(cfg, s, Free(t), Completed(cfg, s', t, heap));
    }
    assert Completes(cfg, s', t);
  }

  /** A step of the call, and then the rest of it. */
  lemma StepCompletes(cfg: Config, s: State, t: nat, ans: Answer, heap: L.Option<nat>, s': State)
    requires t in s.acts && Busy(s.acts[t]) && Enabled(s, Move(t, ans)) && s' == Apply(cfg, s, Move(t, ans))
    requires AsksHeap(s.acts[t]) ==> heap == ans.heap
    ensures t in s'.acts && Busy(s'.acts[t]) ==> Completed(cfg, s', t, heap) == Completed(cfg, s, t, heap)
    ensures !(t in s'.acts && Busy(s'.acts[t])) ==> s' == Completed(cfg, s, t, heap)
  {
    var st := s.acts[t];
    StepAnswer(cfg, s.shared, st, ans, heap);
    var (g', n) := Step(cfg, s.shared, st, ans);
    if n.Some? && Busy(n.value) {
      var (g2, n2) := Alone(cfg, g', n.value, heap);
      assert Put(Put(s.acts, t, n), t, n2) == Put(s.acts, t, n2);
    }
  }

  /** An answer to give before the step, for one that may come after it. */
  lemma MoveCompletes(cfg: Config, s: State, t: nat, ans: Answer, heap: L.Option<nat>, s': State)
    requires t in s.acts && Busy(s.acts[t]) && Completes(cfg, s, t)
    requires Enabled(s, Move(t, ans)) && s' == Apply(cfg, s, Move(t, ans))
    requires t in s'.acts && Busy(s'.acts[t]) && MayAnswer(s'.shared, s'.acts[t], heap)
    ensures Called(cfg, Completed(cfg, s', t, heap))
  {
    var st, st' := s.acts[t], s'.acts[t];
    AloneProgress(cfg, s.shared, st, ans);
    if Asking(st') {
      if AsksHeap(st) { AskedOnce(cfg, s.shared, st, ans); }
      StepCompletes(cfg, s, t, ans, heap, s');
    } else {
      var h := if AsksHeap(st) then ans.heap else L.None;
      StepCompletes(cfg, s, t, ans, h, s');
      AnswerPast(cfg, s'.shared, st', h, heap);
      assert MayAnswer(s.shared, st, h);
    }
  }

  lemma MoveSerial(cfg: Config, s: State, t: nat, ans: Answer, s': State)
    requires t in s.acts && Busy(s.acts[t]) && OthersRest(s, t) && Completes(cfg, s, t)
    requires Enabled(s, Move(t, ans)) && s' == Apply(cfg, s, Move(t, ans))
    ensures Serial(cfg, s')
  {
    if t in s'.acts && Busy(s'.acts[t]) {
      forall heap: L.Option<nat> | MayAnswer(s'.shared, s'.acts[t], heap)
        ensures Called(cfg, Completed(cfg, s', t, heap))
      {
        MoveCompletes(cfg, s, t, ans, heap, s');
      }
      assert Completes(cfg, s', t);
    } else {
      var h := if AsksHeap(s.acts[t]) then ans.heap else L.None;
      StepCompletes(cfg, s, t, ans, h, s');
      assert MayAnswer(s.shared, s.acts[t], h);
    }
  }

  /** Two calls under way are more than one. */
  lemma TwoBusy(s: State, t: nat, u: nat)
    requires t in s.acts && u in s.acts && t != u && Busy(s.acts[t]) && Busy(s.acts[u])
    ensures Count(s.acts, Busy) > 1
  {
    SubsetSize({t, u}, Members(s.acts, Busy));
  }

  lemma SerialStep(cfg: Config, s: State, l: Label, s': State)
    requires Serial(cfg, s) && Enabled(s, l) && s' == Apply(cfg, s, l) && Count(s'.acts, Busy) <= 1
    ensures Serial(cfg, s')
  {
    if Idle(s) && Called(cfg, s) {
      match l
      case Begin(t, st) => BeginSerial(cfg, s, t, st, s');
      case Move(t, ans) => FreeSerial(cfg, s, t, ans, s');
    } else {
      var t :| t in s.acts && Busy(s.acts[t]) && OthersRest(s, t) && Completes(cfg, s, t);
      if l.t != t {
        if l.Move? { StepFrees(cfg, s.shared, s.acts[l.t], l.ans); }
        TwoBusy(s', t, l.t);
      } else {
        MoveSerial(cfg, s, t, l.ans, s');
      }
    }
  }

  lemma SerialStepTo(cfg: Config, s: State, s': State)
    requires Serial(cfg, s) && StepTo(cfg, Busy, 1, s, s')
    ensures Serial(cfg, s')
  {
    var l: Label :| Enabled(s, l) && s' == Apply(cfg, s, l);
    SerialStep(cfg, s, l, s');
  }

  lemma InitSerial(cfg: Config)
    ensures Serial(cfg, Init())
  {
    assert AllCallable(cfg, Init(), []) && DoCalls(cfg, Init(), []) == Init();
  }

  /** The idle states of runs with at most one call under way are exactly those that sequences of
      whole calls lead to. */
  lemma SerialRunsAreCalls(cfg: Config, s: State)
    ensures Idle(s) && Reaches(cfg, Busy, 1, Init(), s) <==> Called(cfg, s)
  {
    if Idle(s) && Reaches(cfg, Busy, 1, Init(), s) {
      SerialRunCalled(cfg, s);
    }
    if Called(cfg, s) {
      var calls: seq<Call> :| AllCallable(cfg, Init(), calls) && DoCalls(cfg, Init(), calls) == s;
      CallsAreRun(cfg, Busy, 1, Init(), calls);
      CallsRest(cfg, Init(), calls);
    }
  }

  lemma SerialRunCalled(cfg: Config, s: State)
    requires Idle(s) && Reaches(cfg, Busy, 1, Init(), s)
    ensures Called(cfg, s)
  {
    var n: nat :| Run(cfg, Busy, 1, Init(), s, n);
    var inv := (x: State) => Serial(cfg, x);
    InitSerial(cfg);
    forall x: State, y: State | inv(x) && Stepping(cfg, Busy, 1)(x, y)
      ensures inv(y)
    {
      SerialStepTo(cfg, x, y);
    }
    Along(Stepping(cfg, Busy, 1), inv, Init(), s, n);
  }

  lemma {:induction false} CallsRest(cfg: Config, s: State, calls: seq<Call>)
    requires Idle(s) && AllCallable(cfg, s, calls)
    ensures Idle(DoCalls(cfg, s, calls))
    decreases |calls|
  {
    if calls != [] {
      CallRests(cfg, s, calls[0]);
      CallsRest(cfg, DoCall(cfg, s, calls[0]), calls[1..]);
    }
  }

  /** So the hysteresis holds whenever such a run is idle: the thresholds, and the flag as the
      automaton gives it for the counter after each of the run's calls. */
  lemma SerialHysteresis(cfg: Config, s: State) returns (calls: seq<Call>)
    requires Idle(s) && Reaches(cfg, Busy, 1, Init(), s)
    ensures AllCallable(cfg, Init(), calls) && DoCalls(cfg, Init(), calls) == s
    ensures Flow(cfg, s.shared, [0] + Counts(cfg, Init(), calls))
    ensures s.shared.txAllocated == Count(s.acts, HeldData)
  {
    SerialRunCalled(cfg, s);
    calls :| AllCallable(cfg, Init(), calls) && DoCalls(cfg, Init(), calls) == s;
    InitBetween(cfg);
    CallsKeep(cfg, Init(), calls, [0]);
    HeldCounted(s);
  }
}
