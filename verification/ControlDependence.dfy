/**
 Control dependence inside one function: instruction `n` depends on the gotos and
 assumptions some but not all of whose successors `n` post-dominates.
 */
module ControlDependence {
  import opened Cfg
  import opened Dominance
  import opened Dominators
  import opened GotoProgram
  import opened AbstractInterpreter
  import opened AhistoricalHistory
  import opened SeseRegions

  // --- the specification -----------------------------------------------------------------

  predicate IsControl(p: Program, m: nat) {
    m < |p| && (p[m].Goto? || p[m].Assume?)
  }

  /** `n` post-dominates some successor of `m`, and not all of them unless `m` is an assumption. */
  ghost predicate DecidedBy(p: Program, m: nat, n: nat)
    requires WellFormed(p)
  {
    var g := LocalGraph(p);
    && (exists s: nat :: g.Edge(m, s) && PostDominates(g, Exits(p), n, s))
    && (p[m].Assume? || exists s: nat :: g.Edge(m, s) && !PostDominates(g, Exits(p), n, s))
  }

  ghost predicate DependsOn(p: Program, n: nat, m: nat)
    requires WellFormed(p)
  {
    m < |p| && (p[m].Goto? || p[m].Assume?) && CanReach(p, m) && LeadsTo(p, m, n) && DecidedBy(p, m, n)
  }

  // --- the domain ----------------------------------------------------------------------------

  /** Dependencies of a location and the control statements it can be reached from. */
  datatype DepState = DepState(hasValues: bool, controlDeps: set<nat>, candidates: set<nat>)

  const BOTTOM := DepState(false, {}, {})
  const ENTRY_STATE := DepState(true, {}, {})

  /** `to` is among the post-dominators of some of the nodes. */
  predicate SomeHave(postdoms: seq<seq<nat>>, nodes: seq<nat>, to: nat) {
    exists k :: 0 <= k < |nodes| && nodes[k] < |postdoms| && to in postdoms[nodes[k]]
  }

  predicate SomeLack(postdoms: seq<seq<nat>>, nodes: seq<nat>, to: nat) {
    exists k :: 0 <= k < |nodes| && nodes[k] < |postdoms| && to !in postdoms[nodes[k]]
  }

  /** The test of one candidate against the stored post-dominators of its successors. */
  predicate Selected(p: Program, out: seq<seq<nat>>, postdoms: seq<seq<nat>>, m: nat, to: nat) {
    m < |p| && m < |out| && SomeHave(postdoms, out[m], to) && (p[m].Assume? || SomeLack(postdoms, out[m], to))
  }

  ghost predicate FitTogether(p: Program, out: seq<seq<nat>>, postdoms: seq<seq<nat>>) {
    && |out| == |p| && |postdoms| == |p|
    && forall m, s :: 0 <= m < |p| && s in out[m] ==> s < |postdoms|
  }

  function NewCandidates(p: Program, from: nat, s: DepState): set<nat> {
    if IsControl(p, from) then s.candidates + {from} else s.candidates
  }

  /** The dependencies after the edge: those no candidate decides, and the selected candidates. */
  function Transform(p: Program, out: seq<seq<nat>>, postdoms: seq<seq<nat>>, from: nat, to: nat, s: DepState)
    : DepState
  {
    if from < |p| && p[from].EndFunction? then s.(candidates := {})
    else
      var candidates := NewCandidates(p, from, s);
      DepState(
        s.hasValues,
        (set m | m in s.controlDeps && m !in candidates)
        + (set m | m in candidates && Selected(p, out, postdoms, m, to)),
        candidates)
  }

  function Merge(dest: DepState, src: DepState): (DepState, bool) {
    var joined := DepState(true, dest.controlDeps + src.controlDeps, dest.candidates + src.candidates);
    (joined, joined != dest)
  }

  /** The domain object, whose operations update its sets in place. */
  class DepGraphDomain {
    var hasValues: bool
    var controlDeps: set<nat>
    var candidates: set<nat>

    constructor ()
      ensures State() == BOTTOM
    {
      hasValues, controlDeps, candidates := false, {}, {};
    }

    function State(): DepState
      reads this
    {
      DepState(hasValues, controlDeps, candidates)
    }

    method MakeEntry()
      modifies this
      ensures State() == ENTRY_STATE
    {
      hasValues, controlDeps, candidates := true, {}, {};
    }

    method Join(src: DepState) returns (changed: bool)
      modifies this
      ensures (State(), changed) == Merge(old(State()), src)
    {
      changed := !hasValues;
      if changed {
        hasValues := true;
      }
      changed := changed || !(src.controlDeps <= controlDeps);
      controlDeps := controlDeps + src.controlDeps;
      changed := changed || !(src.candidates <= candidates);
      candidates := candidates + src.candidates;
    }

    /** Adds `from` to the candidates if it is a control statement, then decides all of them. */
    method ControlDependencies(p: Program, out: seq<seq<nat>>, postdoms: seq<seq<nat>>, from: nat, to: nat)
      requires FitTogether(p, out, postdoms) && from < |p|
      requires forall m :: m in candidates ==> m < |p|
      modifies this
      ensures State() == Transform(p, out, postdoms, from, to, old(State()))
    {
      if p[from].Goto? || p[from].Assume? {
        candidates := candidates + {from};
      } else if p[from].EndFunction? {
        candidates := {};
        return;
      }
      var todo := candidates;
      while todo != {}
        invariant hasValues == old(hasValues) && candidates == NewCandidates(p, from, old(State()))
        invariant todo <= candidates
        invariant forall m :: m in controlDeps <==>
          if m in candidates && m !in todo then Selected(p, out, postdoms, m, to) else m in old(controlDeps)
        decreases |todo|
      {
        var m :| m in todo;
        var selected := Decide(p[m].Assume?, out[m], postdoms, to);
        if selected {
          controlDeps := controlDeps + {m};
        } else {
          controlDeps := controlDeps - {m};
        }
        todo := todo - {m};
      }
    }

    /** Checks all successors of one candidate. */
    method Decide(assumption: bool, successors: seq<nat>, postdoms: seq<seq<nat>>, to: nat) returns (r: bool)
      requires forall s :: s in successors ==> s < |postdoms|
      ensures r <==> SomeHave(postdoms, successors, to) && (assumption || SomeLack(postdoms, successors, to))
    {
      var all, one := !assumption, false;
      for i := 0 to |successors|
        invariant one <==> SomeHave(postdoms, successors[..i], to)
        invariant all <==> !assumption && !SomeLack(postdoms, successors[..i], to)
      {
        assert successors[i] in successors;
        assert successors[..i + 1] == successors[..i] + [successors[i]];
        assert forall k :: 0 <= k < i ==> successors[..i + 1][k] == successors[..i][k];
        assert successors[..i + 1][i] == successors[i];
        if to in postdoms[successors[i]] {
          one := true;
        } else {
          all := false;
        }
      }
      assert successors[..|successors|] == successors;
      r := !(all || !one);
    }
  }

  // --- what the states mean --------------------------------------------------------------------

  function Domain(p: Program, out: seq<seq<nat>>, postdoms: seq<seq<nat>>): DomainKind<DepState> {
    DomainKind(
      BOTTOM,
      (s: DepState) => !s.hasValues,
      ENTRY_STATE,
      (from: nat, to: nat, s: DepState) => Transform(p, out, postdoms, from, to, s),
      Merge)
  }

  /** The state knows the control statement `m` and whether it decides `l`. */
  ghost predicate Knows(p: Program, out: seq<seq<nat>>, postdoms: seq<seq<nat>>, s: DepState, m: nat, l: nat) {
    IsControl(p, m) ==> m in s.candidates && (Selected(p, out, postdoms, m, l) ==> m in s.controlDeps)
  }

  /** The concrete state is the path taken; a state describes it by knowing all of it but its end. */
  ghost predicate Describes(p: Program, out: seq<seq<nat>>, postdoms: seq<seq<nat>>, s: DepState, path: seq<nat>) {
    s.hasValues && path != [] && forall i :: 0 <= i < |path| - 1 ==> Knows(p, out, postdoms, s, path[i], Last(path))
  }

  /** Everything in the state is there for a reason. */
  ghost predicate Justified(p: Program, out: seq<seq<nat>>, postdoms: seq<seq<nat>>, l: nat, s: DepState)
    requires WellFormed(p)
  {
    && (forall m :: m in s.candidates ==> IsControl(p, m) && CanReach(p, m) && LeadsTo(p, m, l))
    && (forall m :: m in s.controlDeps ==> m in s.candidates && Selected(p, out, postdoms, m, l))
  }

  ghost function Meaning(p: Program, out: seq<seq<nat>>, postdoms: seq<seq<nat>>): Semantics<DepState, seq<nat>>
    requires WellFormed(p)
  {
    Semantics(
      (s: DepState, path: seq<nat>) => Describes(p, out, postdoms, s, path),
      (path: seq<nat>) => path == [0],
      (from: nat, path: seq<nat>, to: nat, path': seq<nat>) => path != [] && Last(path) == from && path' == path + [to],
      (l: nat, s: DepState) => Justified(p, out, postdoms, l, s))
  }

  lemma DescribesAlongEdge(p: Program, out: seq<seq<nat>>, postdoms: seq<seq<nat>>,
                           from: nat, to: nat, s: DepState, path: seq<nat>)
    requires WellFormed(p) && from < |p| && to in Successors(p, from)
    requires Describes(p, out, postdoms, s, path) && Last(path) == from
    ensures Describes(p, out, postdoms, Transform(p, out, postdoms, from, to, s), path + [to])
  {
    var next := path + [to];
    forall i | 0 <= i < |next| - 1
      ensures Knows(p, out, postdoms, Transform(p, out, postdoms, from, to, s), next[i], to)
    {
      if i < |path| - 1 {
        assert Knows(p, out, postdoms, s, path[i], from);
      }
    }
  }

  lemma JustifiedAlongEdge(p: Program, out: seq<seq<nat>>, postdoms: seq<seq<nat>>, from: nat, to: nat, s: DepState)
    requires WellFormed(p) && FlowGraph(p).Edge(from, to) && CanReach(p, from)
    requires Justified(p, out, postdoms, from, s)
    ensures Justified(p, out, postdoms, to, Transform(p, out, postdoms, from, to, s))
  {
    forall m | m in NewCandidates(p, from, s)
      ensures LeadsTo(p, m, to)
    {
      LeadsOn(p, m, from, to);
    }
  }

  lemma IsSound(p: Program, out: seq<seq<nat>>, postdoms: seq<seq<nat>>)
    requires WellFormed(p)
    ensures SoundDomain(p, Domain(p, out, postdoms), Meaning(p, out, postdoms))
    ensures InductiveProperty(p, Domain(p, out, postdoms), Meaning(p, out, postdoms))
  {
    forall from: nat, to: nat, s, path: seq<nat> | from < |p| && to in Successors(p, from)
      && Describes(p, out, postdoms, s, path) && Last(path) == from
      ensures Describes(p, out, postdoms, Transform(p, out, postdoms, from, to, s), path + [to])
    {
      DescribesAlongEdge(p, out, postdoms, from, to, s, path);
    }
    forall from: nat, to: nat, s | from < |p| && to in Successors(p, from) && CanReach(p, from)
      && Justified(p, out, postdoms, from, s)
      ensures Justified(p, out, postdoms, to, Transform(p, out, postdoms, from, to, s))
    {
      JustifiedAlongEdge(p, out, postdoms, from, to, s);
    }
    assert SoundMerge(Domain(p, out, postdoms), Meaning(p, out, postdoms)) by {
      forall s: DepState, t: DepState, path: seq<nat> |
        Describes(p, out, postdoms, s, path) || Describes(p, out, postdoms, t, path)
        ensures Describes(p, out, postdoms, Merge(s, t).0, path)
      {
        MergeDescribes(p, out, postdoms, s, t, path);
      }
    }
  }

  lemma MergeDescribes(
    p: Program, out: seq<seq<nat>>, postdoms: seq<seq<nat>>, s: DepState, t: DepState, path: seq<nat>)
    requires Describes(p, out, postdoms, s, path) || Describes(p, out, postdoms, t, path)
    ensures Describes(p, out, postdoms, Merge(s, t).0, path)
  {
    forall i | 0 <= i < |path| - 1
      ensures Knows(p, out, postdoms, Merge(s, t).0, path[i], Last(path))
    {
      assert Knows(p, out, postdoms, s, path[i], Last(path)) || Knows(p, out, postdoms, t, path[i], Last(path));
    }
  }

  // --- termination ---------------------------------------------------------------------------

  function Rank(s: DepState): nat {
    (if s.hasValues then 1 else 0) + |s.controlDeps| + |s.candidates|
  }

  lemma UnionGrows(a: set<nat>, b: set<nat>)
    ensures |a + b| >= |a| && (|a + b| == |a| ==> a + b == a)
  {
    assert a + b == a + (b - a);
  }

  lemma WithinRange(n: nat, a: set<nat>)
    requires forall x :: x in a ==> x < n
    ensures |a| <= n
  {
    assert Range(n) == a + (Range(n) - a);
  }

  ghost function Bound(p: Program): Finiteness<Ahistorical, DepState> {
    Finiteness(Universe(|p|), Rank, 1 + 2 * |p|)
  }

  lemma IsLawfulAnalysis(p: Program, out: seq<seq<nat>>, postdoms: seq<seq<nat>>)
    requires WellFormed(p)
    ensures
      var an := Analysis(p, History(), ByLocation(), Domain(p, out, postdoms), Meaning(p, out, postdoms));
      Lawful(an) && FiniteAnalysis(an, Bound(p)) && History().epoch(0) in Bound(p).universe
  {
    AhistoricalHistory.IsLawful();
    AhistoricalHistory.IsFinite(|p|, Rank, 1 + 2 * |p|);
    IsSound(p, out, postdoms);
    forall l: nat, s | Justified(p, out, postdoms, l, s)
      ensures Rank(s) <= 1 + 2 * |p|
    {
      WithinRange(|p|, s.candidates);
      WithinRange(|p|, s.controlDeps);
    }
    var dom, fin := Domain(p, out, postdoms), Bound(p);
    forall s: DepState, t: DepState
      ensures RankGrows(dom, fin.rank, s, t)
    {
      UnionGrows(s.controlDeps, t.controlDeps);
      UnionGrows(s.candidates, t.candidates);
    }
  }

  // --- exactness -------------------------------------------------------------------------------

  /** The test of the code is the definition of Kumar and Horwitz. */
  lemma SelectedIsDecided(p: Program, postdoms: seq<seq<nat>>, m: nat, n: nat)
    requires WellFormed(p) && m < |p|
    requires Exact(LocalGraph(p).Reverse(), Exits(p), postdoms)
    ensures Selected(p, LocalGraph(p).out, postdoms, m, n) <==> DecidedBy(p, m, n)
  {
    var g := LocalGraph(p);
    var out := g.out[m];
    forall s: nat | s < |p|
      ensures n in postdoms[s] <==> PostDominates(g, Exits(p), n, s)
    {
      PostDominanceIsReverseDominance(g, Exits(p), s);
    }
    forall s: nat | g.Edge(m, s)
      ensures exists k :: 0 <= k < |out| && out[k] == s
    {
      assert s in out;
    }
    forall k | 0 <= k < |out|
      ensures g.Edge(m, out[k])
    {
      assert out[k] in out;
    }
  }

  /** A path with, at each step, the path so far. */
  ghost function RunAlong(path: seq<nat>): seq<(nat, seq<nat>)> {
    seq(|path|, i requires 0 <= i < |path| => (path[i], path[..i + 1]))
  }

  lemma RunAlongIsRun(p: Program, out: seq<seq<nat>>, postdoms: seq<seq<nat>>, path: seq<nat>)
    requires WellFormed(p) && IsPath(FlowGraph(p), path) && path[0] == 0
    ensures ConcreteRun(p, Meaning(p, out, postdoms), RunAlong(path))
  {
    var run, sem := RunAlong(path), Meaning(p, out, postdoms);
    forall i | 0 < i < |run|
      ensures run[i].0 in Successors(p, run[i - 1].0)
      ensures sem.step(run[i - 1].0, run[i - 1].1, run[i].0, run[i].1)
    {
      assert FlowGraph(p).Edge(path[i - 1], path[i]);
    }
    forall i | 0 <= i < |run|
      ensures run[i].0 < |p|
    {
      PathInRange(FlowGraph(p), path, path[i]);
    }
    assert run[0].1 == [0];
  }

  /** What the fixed point keeps for `n`: selected candidates on the way to it. */
  ghost predicate Found(p: Program, out: seq<seq<nat>>, postdoms: seq<seq<nat>>, n: nat, m: nat)
    requires WellFormed(p)
  {
    IsControl(p, m) && CanReach(p, m) && LeadsTo(p, m, n) && Selected(p, out, postdoms, m, n)
  }

  function DepsAt(states: map<nat, DepState>, n: nat): set<nat> {
    if n in states then states[n].controlDeps else {}
  }

  /** At the fixed point the stored dependencies are the real ones, in both directions. */
  lemma DependenciesExact(p: Program, out: seq<seq<nat>>, postdoms: seq<seq<nat>>,
                          st: Store<Ahistorical, nat, DepState>, n: nat, m: nat)
    requires WellFormed(p)
    requires EngineInvariant(
               Analysis(p, History(), ByLocation(), Domain(p, out, postdoms), Meaning(p, out, postdoms)), st, {}, {})
    ensures m in DepsAt(st.states, n) <==> Found(p, out, postdoms, n, m)
  {
    var an := Analysis(p, History(), ByLocation(), Domain(p, out, postdoms), Meaning(p, out, postdoms));
    if n in st.states {
      StoredHasProperty(an, st, n);
      assert Justified(p, out, postdoms, n, st.states[n]);
    }
    if Found(p, out, postdoms, n, m) {
      FoundIsStored(p, out, postdoms, st, n, m);
    }
  }

  /** The state of the last instruction of a path describes it. */
  lemma PathIsDescribed(p: Program, out: seq<seq<nat>>, postdoms: seq<seq<nat>>,
                        st: Store<Ahistorical, nat, DepState>, path: seq<nat>)
    requires WellFormed(p) && IsPath(FlowGraph(p), path) && path[0] == 0
    requires EngineInvariant(
               Analysis(p, History(), ByLocation(), Domain(p, out, postdoms), Meaning(p, out, postdoms)), st, {}, {})
    ensures Last(path) in st.states && Describes(p, out, postdoms, st.states[Last(path)], path)
  {
    var an := Analysis(p, History(), ByLocation(), Domain(p, out, postdoms), Meaning(p, out, postdoms));
    RunAlongIsRun(p, out, postdoms, path);
    CoveredByState(an, st, RunAlong(path), |path| - 1);
    assert path[..|path|] == path;
  }

  /** The path through the statement carries it to the instruction. */
  lemma FoundIsStored(p: Program, out: seq<seq<nat>>, postdoms: seq<seq<nat>>,
                      st: Store<Ahistorical, nat, DepState>, n: nat, m: nat)
    requires WellFormed(p) && Found(p, out, postdoms, n, m)
    requires EngineInvariant(
               Analysis(p, History(), ByLocation(), Domain(p, out, postdoms), Meaning(p, out, postdoms)), st, {}, {})
    ensures m in DepsAt(st.states, n)
  {
    var path, i := PathThrough(p, m, n);
    PathIsDescribed(p, out, postdoms, st, path);
    assert Knows(p, out, postdoms, st.states[n], path[i], Last(path));
  }

  lemma PathThrough(p: Program, m: nat, n: nat) returns (path: seq<nat>, i: nat)
    requires WellFormed(p) && CanReach(p, m) && LeadsTo(p, m, n)
    ensures PathBetween(FlowGraph(p), 0, n, path) && i < |path| - 1 && path[i] == m
  {
    var g := FlowGraph(p);
    var first: seq<nat> :| PathBetween(g, 0, m, first);
    var second: seq<nat> :| PathBetween(g, m, n, second) && |second| > 1;
    PathJoin(g, first, second);
    path, i := Join(first, second), |first| - 1;
  }

  /** Computes the control dependencies of every instruction. */
  method Compute(p: Program) returns (deps: map<nat, set<nat>>)
    requires WellFormed(p)
    ensures forall n: nat :: n in deps <==> n < |p|
    ensures forall n: nat, m: nat :: n < |p| ==> (m in deps[n] <==> DependsOn(p, n, m))
  {
    var g := LocalGraph(p);
    var post := new CfgDominators(g, true);
    assert post.Roots() == Exits(p);
    post.Fixedpoint();
    var states := Analyse(p, g.out, post.dominators);
    deps := map n | 0 <= n < |p| :: DepsAt(states, n);
    forall n: nat, m: nat | n < |p|
      ensures m in deps[n] <==> DependsOn(p, n, m)
    {
      assert m in deps[n] <==> Found(p, g.out, post.dominators, n, m);
      if m < |p| {
        SelectedIsDecided(p, post.dominators, m, n);
      }
    }
  }

  method Analyse(p: Program, out: seq<seq<nat>>, postdoms: seq<seq<nat>>) returns (states: map<nat, DepState>)
    requires WellFormed(p)
    ensures forall n: nat, m: nat :: m in DepsAt(states, n) <==> Found(p, out, postdoms, n, m)
  {
    var ai := new Interpreter<Ahistorical, nat, DepState, seq<nat>>(
      p, History(), ByLocation(), Domain(p, out, postdoms), Meaning(p, out, postdoms));
    IsLawfulAnalysis(p, out, postdoms);
    FiniteIsTerminating(ai.An(), Bound(p));
    ai.Run(FiniteTermination(ai.An(), Bound(p)));
    states := ai.stateMap;
    forall n: nat, m: nat
      ensures m in DepsAt(states, n) <==> Found(p, out, postdoms, n, m)
    {
      DependenciesExact(p, out, postdoms, ai.Stored(), n, m);
    }
  }
}
