/**
 Which instructions may run after a thread has been started: a two-flag domain run by the
 abstract interpreter.
 */
module IsThreaded {
  import opened Cfg
  import opened GotoProgram
  import opened AbstractInterpreter
  import opened AhistoricalHistory

  datatype State = State(reachable: bool, isThreaded: bool)

  const BOTTOM := State(false, false)
  const ENTRY_STATE := State(true, false)

  function Transform(p: Program, from: nat, s: State): State {
    if from < |p| && p[from].StartThread? then s.(isThreaded := true) else s
  }

  function Merge(dest: State, src: State): (State, bool) {
    var joined := State(true, dest.isThreaded || src.isThreaded);
    (joined, joined != dest)
  }

  /** The domain object. States are only transformed and merged where control gets. */
  class IsThreadedDomain {
    var reachable: bool
    var isThreaded: bool

    constructor ()
      ensures Current() == BOTTOM
    {
      reachable, isThreaded := false, false;
    }

    function Current(): State
      reads this
    {
      State(reachable, isThreaded)
    }

    method MakeEntry()
      modifies this
      ensures Current() == ENTRY_STATE
    {
      reachable, isThreaded := true, false;
    }

    method Step(p: Program, from: nat)
      requires reachable && from < |p|
      modifies this
      ensures Current() == Transform(p, from, old(Current()))
    {
      if p[from].StartThread? {
        isThreaded := true;
      }
    }

    method Join(src: IsThreadedDomain) returns (changed: bool)
      requires src.reachable
      modifies this
      ensures (Current(), changed) == Merge(old(Current()), old(src.Current()))
    {
      var oldReachable, oldIsThreaded := reachable, isThreaded;
      reachable := true;
      isThreaded := isThreaded || src.isThreaded;
      changed := oldReachable != reachable || oldIsThreaded != isThreaded;
    }
  }

  function Domain(p: Program): DomainKind<State> {
    DomainKind(
      BOTTOM,
      (s: State) => !s.reachable,
      ENTRY_STATE,
      (from: nat, to: nat, s: State) => Transform(p, from, s),
      Merge)
  }

  /** Some control-flow path to `l` goes over the start of a thread. */
  ghost predicate ThreadedPath(p: Program, l: nat)
    requires WellFormed(p)
  {
    exists path: seq<nat> :: PathBetween(FlowGraph(p), 0, l, path) && StartsThread(p, path, |path| - 1)
  }

  /** One of the first `k` instructions of the path starts a thread. */
  predicate StartsThread(p: Program, path: seq<nat>, k: int) {
    exists i :: 0 <= i < k && i < |path| && path[i] < |p| && p[path[i]].StartThread?
  }

  /** The concrete state is whether a thread has been started yet. */
  ghost function Meaning(p: Program): Semantics<State, bool>
    requires WellFormed(p)
  {
    Semantics(
      (s: State, c: bool) => s.reachable && (c ==> s.isThreaded),
      (c: bool) => !c,
      (from: nat, c: bool, to: nat, c': bool) => c' == (c || (from < |p| && p[from].StartThread?)),
      (l: nat, s: State) => Justified(p, l, s))
  }

  /** A state is only called threaded on the strength of a path. */
  ghost predicate Justified(p: Program, l: nat, s: State)
    requires WellFormed(p)
  {
    s.isThreaded ==> ThreadedPath(p, l)
  }

  lemma JustifiedAlongEdge(p: Program, from: nat, to: nat, s: State)
    requires WellFormed(p) && FlowGraph(p).Edge(from, to) && CanReach(p, from) && Justified(p, from, s)
    ensures Justified(p, to, Transform(p, from, s))
  {
    var g := FlowGraph(p);
    if p[from].StartThread? {
      var path: seq<nat> :| PathBetween(g, 0, from, path);
      PathExtend(g, path, to);
      assert PathBetween(g, 0, to, path + [to]);
      assert (path + [to])[|path| - 1] == from;
      assert StartsThread(p, path + [to], |path + [to]| - 1);
    }
    if s.isThreaded {
      var path: seq<nat> :| PathBetween(g, 0, from, path) && StartsThread(p, path, |path| - 1);
      var i :| 0 <= i < |path| - 1 && path[i] < |p| && p[path[i]].StartThread?;
      PathExtend(g, path, to);
      assert PathBetween(g, 0, to, path + [to]);
      assert (path + [to])[i] == path[i];
      assert StartsThread(p, path + [to], |path + [to]| - 1);
    }
  }

  lemma IsSound(p: Program)
    requires WellFormed(p)
    ensures SoundDomain(p, Domain(p), Meaning(p)) && InductiveProperty(p, Domain(p), Meaning(p))
  {
    forall from: nat, to: nat, s | from < |p| && to in Successors(p, from) && CanReach(p, from) && Justified(p, from, s)
      ensures Justified(p, to, Transform(p, from, s))
    {
      JustifiedAlongEdge(p, from, to, s);
    }
  }

  /** Each flag can be set once. */
  function Rank(s: State): nat {
    (if s.reachable then 1 else 0) + if s.isThreaded then 1 else 0
  }

  /** A path, with the concrete state along it. */
  ghost function RunAlong(p: Program, path: seq<nat>): seq<(nat, bool)> {
    seq(|path|, i requires 0 <= i < |path| => (path[i], StartsThread(p, path, i)))
  }

  lemma StartsThreadStep(p: Program, path: seq<nat>, i: nat)
    requires 0 < i <= |path| && path[i - 1] < |p|
    ensures StartsThread(p, path, i) <==> StartsThread(p, path, i - 1) || p[path[i - 1]].StartThread?
  {
    if StartsThread(p, path, i - 1) {
      var k :| 0 <= k < i - 1 && k < |path| && path[k] < |p| && p[path[k]].StartThread?;
      assert 0 <= k < i;
    }
  }

  lemma RunAlongIsRun(p: Program, path: seq<nat>)
    requires WellFormed(p) && IsPath(FlowGraph(p), path) && path[0] == 0
    ensures ConcreteRun(p, Meaning(p), RunAlong(p, path))
  {
    var run := RunAlong(p, path);
    forall i | 0 < i < |run|
      ensures run[i].0 in Successors(p, run[i - 1].0)
      ensures run[i].1 == (run[i - 1].1 || p[run[i - 1].0].StartThread?)
    {
      assert FlowGraph(p).Edge(path[i - 1], path[i]);
      StartsThreadStep(p, path, i);
    }
    forall i | 0 <= i < |run|
      ensures run[i].0 < |p|
    {
      PathInRange(FlowGraph(p), path, path[i]);
    }
  }

  ghost function Bound(p: Program): Finiteness<Ahistorical, State> {
    Finiteness(Universe(|p|), Rank, 2)
  }

  lemma IsLawfulAnalysis(p: Program)
    requires WellFormed(p)
    ensures
      var an := Analysis(p, History(), ByLocation(), Domain(p), Meaning(p));
      Lawful(an) && FiniteAnalysis(an, Bound(p)) && History().epoch(0) in Bound(p).universe
  {
    AhistoricalHistory.IsLawful();
    IsSound(p);
    AhistoricalHistory.IsFinite(|p|, Rank, 2);
  }

  predicate Flagged(states: map<nat, State>, l: nat) {
    l in states && states[l].isThreaded
  }

  /** The states the abstract interpreter ends with. */
  method Analyse(p: Program) returns (states: map<nat, State>)
    requires WellFormed(p)
    ensures forall l: nat :: l < |p| ==> (Flagged(states, l) <==> ThreadedPath(p, l))
  {
    var ai := new Interpreter<Ahistorical, nat, State, bool>(p, History(), ByLocation(), Domain(p), Meaning(p));
    IsLawfulAnalysis(p);
    FiniteIsTerminating(ai.An(), Bound(p));
    ai.Run(FiniteTermination(ai.An(), Bound(p)));
    states := ai.stateMap;
    forall l: nat | l < |p|
      ensures Flagged(states, l) <==> ThreadedPath(p, l)
    {
      ThreadedIsExact(p, ai.Stored(), l);
    }
  }

  /** The instructions whose state has the flag. */
  method Collect(n: nat, states: map<nat, State>) returns (threaded: set<nat>)
    ensures forall l: nat :: l in threaded <==> l < n && Flagged(states, l)
  {
    threaded := {};
    for l := 0 to n
      invariant forall k: nat :: k in threaded <==> k < l && Flagged(states, k)
    {
      if l in states && states[l].isThreaded {
        threaded := threaded + {l};
      }
    }
  }

  /** Collects the threaded instructions: exactly those past a thread start. */
  method Compute(p: Program) returns (threaded: set<nat>)
    requires WellFormed(p)
    ensures forall l: nat :: l in threaded <==> l < |p| && ThreadedPath(p, l)
  {
    var states := Analyse(p);
    threaded := Collect(|p|, states);
  }

  lemma ThreadedIsExact(p: Program, st: Store<Ahistorical, nat, State>, l: nat)
    requires WellFormed(p) && l < |p|
    requires EngineInvariant(Analysis(p, History(), ByLocation(), Domain(p), Meaning(p)), st, {}, {})
    ensures Flagged(st.states, l) <==> ThreadedPath(p, l)
  {
    var an := Analysis(p, History(), ByLocation(), Domain(p), Meaning(p));
    if ThreadedPath(p, l) {
      var path: seq<nat> :| PathBetween(FlowGraph(p), 0, l, path) && StartsThread(p, path, |path| - 1);
      RunAlongIsRun(p, path);
      CoveredByState(an, st, RunAlong(p, path), |path| - 1);
    }
    if l in st.states {
      StoredHasProperty(an, st, l);
      assert Justified(p, l, st.states[l]);
    }
  }
}
