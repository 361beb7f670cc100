/**
  Composing runs of the packet memory manager: one activity moves while the others rest.
 */
module PktMemRuns {

  import opened PktMem
  import opened PktMemSafety
  import L = PacketLayout

  ghost predicate Reaches(cfg: Config, call: Stage -> bool, limit: nat, s: State, s': State) {
    exists n: nat :: Run(cfg, call, limit, s, s', n)
  }

  lemma {:induction false} ChainConcat(next: (State, State) -> bool, s: State, m: State, s': State, i: nat, j: nat)
    requires Chain(next, s, m, i) && Chain(next, m, s', j)
    ensures Chain(next, s, s', i + j)
    decreases i
  {
    if i > 0 {
      var r: State :| next(s, r) && Chain(next, r, m, i - 1);
      ChainConcat(next, r, m, s', i - 1, j);
    }
  }

  lemma Transitive(cfg: Config, call: Stage -> bool, limit: nat, s: State, m: State, s': State)
    requires Reaches(cfg, call, limit, s, m) && Reaches(cfg, call, limit, m, s')
    ensures Reaches(cfg, call, limit, s, s')
  {
    var i: nat :| Run(cfg, call, limit, s, m, i);
    var j: nat :| Run(cfg, call, limit, m, s', j);
    ChainConcat(Stepping(cfg, call, limit), s, m, s', i, j);
    assert Run(cfg, call, limit, s, s', i + j);
  }

  lemma Single(cfg: Config, call: Stage -> bool, limit: nat, s: State, s': State)
    requires StepTo(cfg, call, limit, s, s')
    ensures Reaches(cfg, call, limit, s, s')
  {
    var next := Stepping(cfg, call, limit);
    assert next(s, s') && Chain(next, s', s', 0);
    assert Run(cfg, call, limit, s, s', 1);
  }

  lemma Same(cfg: Config, call: Stage -> bool, limit: nat, s: State)
    ensures Reaches(cfg, call, limit, s, s)
  {
    assert Run(cfg, call, limit, s, s, 0);
  }

  /** Marks the runs that a proof puts together. */
  predicate Joined(s: State, m: State, s': State) { true }

  /** A relation that contains the steps and can be composed, as Reaches is. */
  ghost predicate Closed(cfg: Config, call: Stage -> bool, limit: nat, reach: (State, State) -> bool) {
    && (forall s: State :: reach(s, s))
    && (forall s: State, s': State {:trigger StepTo(cfg, call, limit, s, s')} ::
          StepTo(cfg, call, limit, s, s') ==> reach(s, s'))
    && (forall s: State, m: State, s': State {:trigger Joined(s, m, s')} ::
          Joined(s, m, s') && reach(s, m) && reach(m, s') ==> reach(s, s'))
  }

  lemma Via(cfg: Config, call: Stage -> bool, limit: nat, reach: (State, State) -> bool, s: State, m: State, s': State)
    requires Closed(cfg, call, limit, reach) && reach(s, m) && reach(m, s')
    ensures reach(s, s')
  {
    assert Joined(s, m, s');
  }

  // ----- One activity moves while the others rest -----

  /** The state in which the resting activities are `acts` and `t` is at `st`. */
  function With(g: Shared, acts: map<nat, Stage>, t: nat, st: Stage): State {
    State(g, acts[t := st])
  }

  lemma WithCount(call: Stage -> bool, g: Shared, acts: map<nat, Stage>, t: nat, st: Stage)
    requires t !in acts
    ensures Count(With(g, acts, t, st).acts, call) == Count(acts, call) + One(call(st))
  {
    CountPut(acts, t, L.Some(st), call);
  }

  lemma Starts(cfg: Config, call: Stage -> bool, limit: nat, reach: (State, State) -> bool, g: Shared,
               acts: map<nat, Stage>, t: nat, st: Stage)
    requires Closed(cfg, call, limit, reach)
    requires t !in acts && Count(acts, call) < limit && (st.TxEntry? || st.RxEntry?)
    ensures reach(State(g, acts), With(g, acts, t, st))
  {
    WithCount(call, g, acts, t, st);
    assert Enabled(State(g, acts), Begin(t, st));
    assert StepTo(cfg, call, limit, State(g, acts), With(g, acts, t, st));
  }

  lemma Goes(cfg: Config, call: Stage -> bool, limit: nat, reach: (State, State) -> bool, g: Shared,
             acts: map<nat, Stage>, t: nat, st: Stage, ans: Answer, g': Shared, st': Stage)
    requires Closed(cfg, call, limit, reach)
    requires t !in acts && Count(acts, call) + One(call(st')) <= limit
    requires ans.fits == Fits(st) && (ans.heap.Some? ==> ans.heap.value !in g.heap)
    requires Step(cfg, g, st, ans) == (g', L.Some(st'))
    ensures reach(With(g, acts, t, st), With(g', acts, t, st'))
  {
    WithCount(call, g', acts, t, st');
    var s, s' := With(g, acts, t, st), With(g', acts, t, st');
    assert acts[t := st][t := st'] == acts[t := st'];
    assert Enabled(s, Move(t, ans)) && s' == Apply(cfg, s, Move(t, ans));
    assert StepTo(cfg, call, limit, s, s');
  }

  lemma Ends(cfg: Config, call: Stage -> bool, limit: nat, reach: (State, State) -> bool, g: Shared,
             acts: map<nat, Stage>, t: nat, st: Stage, ans: Answer, g': Shared)
    requires Closed(cfg, call, limit, reach)
    requires t !in acts && Count(acts, call) <= limit
    requires ans.fits == Fits(st) && (ans.heap.Some? ==> ans.heap.value !in g.heap)
    requires Step(cfg, g, st, ans) == (g', L.None)
    ensures reach(With(g, acts, t, st), State(g', acts))
  {
    var s, s' := With(g, acts, t, st), State(g', acts);
    assert acts[t := st] - {t} == acts;
    assert Enabled(s, Move(t, ans)) && s' == Apply(cfg, s, Move(t, ans));
    assert StepTo(cfg, call, limit, s, s');
  }

  lemma ReachesClosed(cfg: Config, call: Stage -> bool, limit: nat, reach: (State, State) -> bool)
    requires forall s: State, s': State :: reach(s, s') <==> Reaches(cfg, call, limit, s, s')
    ensures Closed(cfg, call, limit, reach)
  {
    forall s: State ensures reach(s, s) { Same(cfg, call, limit, s); }
    forall s: State, s': State | StepTo(cfg, call, limit, s, s')
      ensures reach(s, s')
    {
      Single(cfg, call, limit, s, s');
    }
    forall s: State, m: State, s': State | reach(s, m) && reach(m, s')
      ensures reach(s, s')
    {
      Transitive(cfg, call, limit, s, m, s');
    }
  }

  /** The invariant holds wherever a state that has it can lead. */
  lemma InvReaches(cfg: Config, call: Stage -> bool, limit: nat, s: State, s': State)
    requires Inv(cfg, s) && Reaches(cfg, call, limit, s, s')
    ensures Inv(cfg, s')
  {
    var n: nat :| Run(cfg, call, limit, s, s', n);
    var inv := (x: State) => Inv(cfg, x);
    forall x: State, y: State | inv(x) && Stepping(cfg, call, limit)(x, y)
      ensures inv(y)
    {
      InvStep(cfg, call, limit, x, y);
    }
    Along(Stepping(cfg, call, limit), inv, s, s', n);
  }
}
