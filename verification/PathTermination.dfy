/**
 When an analysis with the history of local decisions ends. With a limit of one it always does; with a larger one
 it does unless tracked jumps alone make up a cycle, and need not otherwise.
 */
module PathTermination {
  import opened Cfg
  import opened GotoProgram
  import opened AbstractInterpreter
  import opened LocalControlFlowHistory

  // --- cycles of tracked jumps -------------------------------------------------------------------------

  /** A path of at least one step, each of them out of a tracked jump. */
  ghost predicate TrackedPath(p: Program, c: Config, l: nat, x: nat, path: seq<nat>)
    requires WellFormed(p)
  {
    && PathBetween(FlowGraph(p), l, x, path) && |path| > 1
    && forall i :: 0 <= i < |path| - 1 ==> Tracks(c, path[i])
  }

  ghost predicate NoTrackedCycle(p: Program, c: Config)
    requires WellFormed(p)
  {
    forall l: nat, path: seq<nat> :: !TrackedPath(p, c, l, l, path)
  }

  /** What tracked jumps lead to from `l`. */
  ghost function Beyond(p: Program, c: Config, l: nat): set<nat>
    requires WellFormed(p)
  {
    set x | x in Range(|p|) && exists path: seq<nat> :: TrackedPath(p, c, l, x, path)
  }

  lemma InBeyond(p: Program, c: Config, l: nat, x: nat, path: seq<nat>)
    requires WellFormed(p) && TrackedPath(p, c, l, x, path)
    ensures x in Beyond(p, c, l)
  {
    PathInRange(FlowGraph(p), path, x);
  }

  /** Over a tracked jump, there is less beyond. */
  lemma BeyondShrinks(p: Program, c: Config, l: nat, to: nat)
    requires WellFormed(p) && NoTrackedCycle(p, c) && FlowGraph(p).Edge(l, to) && Tracks(c, l)
    ensures |Beyond(p, c, to)| < |Beyond(p, c, l)|
  {
    forall x | x in Beyond(p, c, to)
      ensures x in Beyond(p, c, l)
    {
      var path: seq<nat> :| TrackedPath(p, c, to, x, path);
      PathPrepend(FlowGraph(p), l, path);
      InBeyond(p, c, l, x, [l] + path);
    }
    InBeyond(p, c, l, to, [l, to]);
    assert to !in Beyond(p, c, to);
    ProperSubsetSize(Beyond(p, c, to), Beyond(p, c, l));
  }

  lemma ProperSubsetSize<T>(a: set<T>, b: set<T>)
    requires a < b
    ensures |a| < |b|
  {
    assert b == a + (b - a);
    assert b - a != {};
  }

  /** Jumps that are not tracked backwards cannot make up a cycle. */
  lemma {:induction false} ForwardAscends(p: Program, c: Config, path: seq<nat>, i: nat)
    requires WellFormed(p) && IsPath(FlowGraph(p), path) && i < |path|
    requires forall l: nat :: Tracks(c, l) && l < |p| ==> p[l].Goto? && p[l].target > l
    requires forall k :: 0 <= k < |path| - 1 ==> Tracks(c, path[k])
    ensures path[0] + i <= path[i]
  {
    if i > 0 {
      ForwardAscends(p, c, path, i - 1);
      assert FlowGraph(p).Edge(path[i - 1], path[i]);
    }
  }

  lemma ForwardTrackingHasNoCycle(p: Program, trackForward: bool, limit: nat)
    requires WellFormed(p)
    ensures NoTrackedCycle(p, ConfigOf(p, trackForward, false, limit))
  {
    var c := ConfigOf(p, trackForward, false, limit);
    forall l: nat, path: seq<nat> | TrackedPath(p, c, l, l, path)
      ensures false
    {
      ForwardAscends(p, c, path, |path| - 1);
    }
  }

  // --- what gets less --------------------------------------------------------------------------------------

  type PathStore<S> = Store<LocalHistory, LocalHistory, S>

  ghost predicate WithinCount<S>(st: PathStore<S>, limit: nat) {
    forall l: nat :: |TracesAt(st, l)| <= limit
  }

  /** The ranks that states do not have yet. */
  ghost function Growth<S>(states: map<LocalHistory, S>, rank: S -> nat, height: nat): set<(LocalHistory, nat)> {
    set h, k: nat | h in states.Keys && k < height && rank(states[h]) <= k :: (h, k)
  }

  /** The queued histories that are not of merged paths. */
  function Unmerged(work: set<LocalHistory>): set<LocalHistory> {
    set h | h in work && h.decisions != Null
  }

  function PowerOf3(n: nat): (r: nat)
    ensures r > 0
  {
    if n == 0 then 1 else 3 * PowerOf3(n - 1)
  }

  lemma {:induction false} PowerGrows(m: nat, n: nat)
    requires m <= n
    ensures PowerOf3(m) <= PowerOf3(n)
  {
    if m < n {
      PowerGrows(m, n - 1);
    }
  }

  /** The weight of the queued histories of merged paths. */
  ghost function MergedWeight(work: set<LocalHistory>, rho: nat -> nat, k: nat): nat {
    if k == 0 then 0
    else MergedWeight(work, rho, k - 1) + if LocalHistory(k - 1, Null) in work then PowerOf3(rho(k - 1)) else 0
  }

  lemma {:induction false} WeightWithout(work: set<LocalHistory>, rho: nat -> nat, l: nat, k: nat)
    requires LocalHistory(l, Null) in work
    ensures MergedWeight(work, rho, k) ==
      MergedWeight(work - {LocalHistory(l, Null)}, rho, k) + if l < k then PowerOf3(rho(l)) else 0
  {
    if k > 0 {
      WeightWithout(work, rho, l, k - 1);
    }
  }

  lemma {:induction false} WeightWith(
    work: set<LocalHistory>, more: set<LocalHistory>, rho: nat -> nat, a: nat, b: nat, k: nat)
    requires forall h :: h in more && h !in work ==> h.location == a || h.location == b
    ensures MergedWeight(more, rho, k) <=
      MergedWeight(work, rho, k) + (if a < k then PowerOf3(rho(a)) else 0) + (if b < k then PowerOf3(rho(b)) else 0)
  {
    if k > 0 {
      WeightWith(work, more, rho, a, b, k - 1);
    }
  }

  /** A queued history of merged paths may be replaced by two with less weight each. */
  lemma ReplacedWeighsLess(
    work: set<LocalHistory>, more: set<LocalHistory>, rho: nat -> nat, l: nat, a: nat, b: nat, k: nat)
    requires LocalHistory(l, Null) in work && l < k && rho(a) < rho(l) && rho(b) < rho(l)
    requires forall h :: h in more && h !in work - {LocalHistory(l, Null)} ==> h.location == a || h.location == b
    ensures MergedWeight(more, rho, k) < MergedWeight(work, rho, k)
  {
    WeightWithout(work, rho, l, k);
    WeightWith(work - {LocalHistory(l, Null)}, more, rho, a, b, k);
    PowerGrows(rho(a), rho(l) - 1);
    PowerGrows(rho(b), rho(l) - 1);
  }

  /** Each location has at most as many histories as allowed. */
  lemma {:induction false} HistoriesFit(hs: set<LocalHistory>, limit: nat, n: nat)
    requires forall h :: h in hs ==> h.location < n
    requires forall l: nat :: |AtLocation(hs, l)| <= limit
    ensures |hs| <= n * limit
  {
    if n > 0 {
      var here, rest := AtLocation(hs, n - 1), hs - AtLocation(hs, n - 1);
      assert hs == here + rest;
      forall l: nat
        ensures |AtLocation(rest, l)| <= limit
      {
        assert AtLocation(rest, l) == if l == n - 1 then {} else AtLocation(hs, l);
      }
      HistoriesFit(rest, limit, n - 1);
      assert n * limit == (n - 1) * limit + limit;
    } else {
      assert hs == {};
    }
  }

  function AtLocation(hs: set<LocalHistory>, l: nat): set<LocalHistory> {
    set h | h in hs && h.location == l
  }

  lemma StatesFit<S(!new), C(!new)>(
    p: Program, c: Config, dom: DomainKind<S>, sem: Semantics<S, C>, st: PathStore<S>)
    requires Populated(PathSensitive(p, c, dom, sem), st) && WithinCount(st, c.limit)
    ensures |st.states.Keys| <= |p| * c.limit
    ensures forall h :: h in st.states <==> h in TracesAt(st, h.location)
    ensures forall l: nat :: AtLocation(st.states.Keys, l) == TracesAt(st, l)
  {
    var an := PathSensitive(p, c, dom, sem);
    forall h
      ensures h in st.states <==> h in TracesAt(st, h.location)
      ensures h in st.states ==> h.location < |p|
    {
      assert h in TracesAt(st, h.location) <==> Registered(st, an.hist, h);
      if h in st.states {
        var g :| Registered(st, an.hist, g) && an.key(g) == h;
      }
    }
    forall l: nat
      ensures AtLocation(st.states.Keys, l) == TracesAt(st, l)
    {
      forall h | h in TracesAt(st, l)
        ensures h.location == l
      {
        assert l in st.traces && h in st.traces[l] && an.hist.location(h) == l;
      }
    }
    HistoriesFit(st.states.Keys, c.limit, |p|);
  }

  // --- one edge ----------------------------------------------------------------------------------------------

  /** What is queued without being new are merged paths, come to from other paths or over a tracked jump. */
  ghost predicate MayQueueMerged(c: Config, h: LocalHistory) {
    h.decisions != Null || (Tracks(c, h.location) && c.limit != 1)
  }

  lemma NewAgain(c: Config, h: LocalHistory, to: nat, others: set<LocalHistory>)
    requires Step(c, h, to, others, h).New? && Step(c, h, to, others, h).history in others
    ensures Step(c, h, to, others, h).history == LocalHistory(to, Null) && MayQueueMerged(c, h)
  {
    NewMayBeOldExactly(c, h, to, others, h);
    assert c.limit == 1 ==> |others| == 0;
  }

  /** More histories, or states of a higher rank, or only merged paths queued again. */
  ghost predicate EdgeSpends<S>(
    c: Config, rank: S -> nat, height: nat, before: PathStore<S>, after: PathStore<S>, work: set<LocalHistory>,
    work': set<LocalHistory>, h: LocalHistory, to: nat)
  {
    && WithinCount(after, c.limit)
    && (|| (before.states.Keys < after.states.Keys)
        || (after.states.Keys == before.states.Keys
            && Growth(after.states, rank, height) < Growth(before.states, rank, height))
        || (after.states.Keys == before.states.Keys
            && Growth(after.states, rank, height) <= Growth(before.states, rank, height)
            && (work' == work || (work' == work + {LocalHistory(to, Null)} && MayQueueMerged(c, h)))))
  }

  lemma GrowthOfOne<S>(
    states: map<LocalHistory, S>, h: LocalHistory, s: S, rank: S -> nat, height: nat)
    requires h in states && rank(states[h]) <= rank(s) <= height
    ensures Growth(states[h := s], rank, height) <= Growth(states, rank, height)
    ensures rank(states[h]) < rank(s) ==> Growth(states[h := s], rank, height) < Growth(states, rank, height)
  {
    var states' := states[h := s];
    assert states'.Keys == states.Keys;
    if rank(states[h]) < rank(s) {
      assert (h, rank(states[h])) in Growth(states, rank, height);
      assert (h, rank(states[h])) !in Growth(states', rank, height);
    }
  }

  lemma CountAfterEdge<S>(c: Config, before: PathStore<S>, after: PathStore<S>, h: LocalHistory, to: nat)
    requires c.limit >= 1 && WithinCount(before, c.limit)
    requires after.traces ==
      before.traces[to := TracesAt(before, to) + {Step(c, h, to, TracesAt(before, to), h).history}]
    ensures WithinCount(after, c.limit)
  {
    StepStaysWithinCount(c, h, to, TracesAt(before, to), h);
    forall l: nat
      ensures |TracesAt(after, l)| <= c.limit
    {
      assert l != to ==> TracesAt(after, l) == TracesAt(before, l);
    }
  }

  /** Merging into a state there is already changes nothing, or raises its rank. */
  lemma MergedEffect<S>(
    c: Config, dom: DomainKind<S>, rank: S -> nat, height: nat, before: PathStore<S>, h: LocalHistory, to: nat,
    work: set<LocalHistory>)
    requires c.limit >= 1 && WithinCount(before, c.limit) && h in before.states
    requires
      var r := Step(c, h, to, TracesAt(before, to), h);
      && r.history in TracesAt(before, to) && r.history in before.states
      && var src := dom.transform(h.location, to, before.states[h]);
      && RankGrows(dom, rank, before.states[r.history], src)
      && rank(dom.merge(before.states[r.history], src).0) <= height
    ensures
      var s := VisitedEdge(History(c), ByHistory(), dom, before, h, to, work);
      EdgeSpends(c, rank, height, before, s.store, work, s.work, h, to)
  {
    var others := TracesAt(before, to);
    var toP := Step(c, h, to, others, h).history;
    var s := VisitedEdge(History(c), ByHistory(), dom, before, h, to, work);
    StepStaysWithinCount(c, h, to, others, h);
    CountAfterEdge(c, before, s.store, h, to);
    GrowthOfOne(before.states, toP, s.store.states[toP], rank, height);
    if s.newData && Step(c, h, to, others, h).New? {
      NewAgain(c, h, to, others);
    }
  }

  lemma FreshEffect<S>(
    c: Config, dom: DomainKind<S>, rank: S -> nat, height: nat, before: PathStore<S>, h: LocalHistory, to: nat,
    work: set<LocalHistory>)
    requires c.limit >= 1 && WithinCount(before, c.limit) && h in before.states
    requires Step(c, h, to, TracesAt(before, to), h).history !in before.states
    ensures
      var s := VisitedEdge(History(c), ByHistory(), dom, before, h, to, work);
      EdgeSpends(c, rank, height, before, s.store, work, s.work, h, to)
  {
    var s := VisitedEdge(History(c), ByHistory(), dom, before, h, to, work);
    StepStaysWithinCount(c, h, to, TracesAt(before, to), h);
    CountAfterEdge(c, before, s.store, h, to);
    var toP := Step(c, h, to, TracesAt(before, to), h).history;
    assert toP in s.store.states.Keys && toP !in before.states.Keys;
  }

  lemma EdgeEffect<S(!new), C(!new)>(
    p: Program, c: Config, dom: DomainKind<S>, sem: Semantics<S, C>, rank: S -> nat, height: nat,
    h: LocalHistory, rest: set<LocalHistory>, r: EdgeResult<LocalHistory, LocalHistory, S>, i: nat)
    requires c.limit >= 1 && Lawful(PathSensitive(p, c, dom, sem))
    requires BoundedRank(PathSensitive(p, c, dom, sem), rank, height)
    requires PartlyVisited(PathSensitive(p, c, dom, sem), h, rest, r, i) && WithinCount(r.store, c.limit)
    requires i < |Successors(p, h.location)|
    ensures
      var to := Successors(p, h.location)[i];
      var s := VisitedEdge(History(c), ByHistory(), dom, r.store, h, to, r.work);
      EdgeSpends(c, rank, height, r.store, s.store, r.work, s.work, h, to)
  {
    var an, to := PathSensitive(p, c, dom, sem), Successors(p, h.location)[i];
    var toP := VisitedEdgeIsDone(an, r.store, h, to, r.work);
    StatesFit(p, c, dom, sem, r.store);
    assert an.hist.step(h, to, TracesAt(r.store, to)) == Step(c, h, to, TracesAt(r.store, to), h);
    if toP in TracesAt(r.store, to) {
      PropertyOfStored(an, r.store, toP);
      var src := dom.transform(h.location, to, r.store.states[h]);
      assert sem.property(to, src) && sem.property(to, dom.merge(r.store.states[toP], src).0);
      MergedEffect(c, dom, rank, height, r.store, h, to, r.work);
    } else {
      FreshEffect(c, dom, rank, height, r.store, h, to, r.work);
    }
  }

  // --- one visit -----------------------------------------------------------------------------------------------

  /** What was queued so far without anything new are merged paths at successors. */
  ghost predicate OnlyMerged(
    p: Program, c: Config, h: LocalHistory, rest: set<LocalHistory>, work: set<LocalHistory>)
    requires h.location < |p|
  {
    && rest <= work
    && forall q :: q in work && q !in rest ==>
         MayQueueMerged(c, h) && q.decisions == Null && q.location in Successors(p, h.location)
  }

  /** The same for the edges of a visit together. */
  ghost predicate VisitSpends<S>(
    p: Program, c: Config, rank: S -> nat, height: nat, before: PathStore<S>, h: LocalHistory,
    rest: set<LocalHistory>, r: EdgeResult<LocalHistory, LocalHistory, S>)
    requires h.location < |p|
  {
    && WithinCount(r.store, c.limit)
    && (|| |before.states.Keys| < |r.store.states.Keys|
        || (|r.store.states.Keys| == |before.states.Keys|
            && |Growth(r.store.states, rank, height)| < |Growth(before.states, rank, height)|)
        || (|r.store.states.Keys| == |before.states.Keys|
            && |Growth(r.store.states, rank, height)| <= |Growth(before.states, rank, height)|
            && OnlyMerged(p, c, h, rest, r.work)))
  }

  lemma SubsetSizes<T>(a: set<T>, b: set<T>)
    requires a <= b
    ensures |a| <= |b| && (a < b ==> |a| < |b|)
  {
    assert b == a + (b - a);
    if a < b {
      assert b - a != {};
    }
  }

  /** One more edge. */
  lemma SpendsOn<S>(
    p: Program, c: Config, rank: S -> nat, height: nat, before: PathStore<S>, h: LocalHistory,
    rest: set<LocalHistory>, r: EdgeResult<LocalHistory, LocalHistory, S>,
    s: EdgeResult<LocalHistory, LocalHistory, S>, to: nat)
    requires h.location < |p| && to in Successors(p, h.location)
    requires VisitSpends(p, c, rank, height, before, h, rest, r)
    requires EdgeSpends(c, rank, height, r.store, s.store, r.work, s.work, h, to)
    ensures VisitSpends(p, c, rank, height, before, h, rest, s)
  {
    SubsetSizes(r.store.states.Keys, s.store.states.Keys);
    if s.store.states.Keys == r.store.states.Keys {
      SubsetSizes(Growth(s.store.states, rank, height), Growth(r.store.states, rank, height));
    }
  }

  lemma VisitEffect<S(!new), C(!new)>(
    p: Program, c: Config, dom: DomainKind<S>, sem: Semantics<S, C>, rank: S -> nat, height: nat,
    st: PathStore<S>, work: set<LocalHistory>, h: LocalHistory)
    requires c.limit >= 1 && Lawful(PathSensitive(p, c, dom, sem))
    requires BoundedRank(PathSensitive(p, c, dom, sem), rank, height)
    requires EngineInvariant(PathSensitive(p, c, dom, sem), st, work, {}) && h in work && WithinCount(st, c.limit)
    ensures h.location < |p|
    ensures VisitSpends(
      p, c, rank, height, st, h, work - {h}, Visited(PathSensitive(p, c, dom, sem), st, work, h))
  {
    var an, rest := PathSensitive(p, c, dom, sem), work - {h};
    assert Registered(st, an.hist, h) && an.hist.location(h) == h.location;
    var inv := (r: EdgeResult<LocalHistory, LocalHistory, S>) => VisitSpends(p, c, rank, height, st, h, rest, r);
    forall r: EdgeResult<LocalHistory, LocalHistory, S>, i: nat | PartlyVisited(an, h, rest, r, i)
      && i < |Successors(p, h.location)| && inv(r)
      ensures inv(NextEdge(an.hist, an.key, an.dom, r, h, Successors(p, h.location)[i]))
    {
      EdgeEffect(p, c, dom, sem, rank, height, h, rest, r, i);
      var to := Successors(p, h.location)[i];
      var s := NextEdge(an.hist, an.key, an.dom, r, h, to);
      SpendsOn(p, c, rank, height, st, h, rest, r, s, to);
    }
    VisitKeeps(an, st, work, h, inv);
  }

  // --- termination -----------------------------------------------------------------------------------------------

  ghost function Rho(p: Program, c: Config): nat -> nat
    requires WellFormed(p)
  {
    (l: nat) => |Beyond(p, c, l)|
  }

  /** How many histories there is still room for. */
  function HistoriesLeft(p: Program, c: Config, used: nat): nat {
    if used <= |p| * c.limit then |p| * c.limit - used else 0
  }

  ghost function PathMeasure<S>(
    p: Program, c: Config, rank: S -> nat, height: nat, st: PathStore<S>, work: set<LocalHistory>): Measure
    requires WellFormed(p)
  {
    Measure(
      HistoriesLeft(p, c, |st.states.Keys|), |Growth(st.states, rank, height)|,
      |Unmerged(work)|, MergedWeight(work, Rho(p, c), |p|))
  }

  ghost function PathTermination<S>(p: Program, c: Config, rank: S -> nat, height: nat)
    : Termination<LocalHistory, LocalHistory, S>
    requires WellFormed(p)
  {
    Termination(
      (st: PathStore<S>, work: set<LocalHistory>) => WithinCount(st, c.limit),
      (st: PathStore<S>, work: set<LocalHistory>) => PathMeasure(p, c, rank, height, st, work))
  }

  lemma PathsShrink(work: set<LocalHistory>, more: set<LocalHistory>, h: LocalHistory)
    requires h in work && work - {h} <= more && forall q :: q in more && q !in work - {h} ==> q.decisions == Null
    ensures |Unmerged(more)| == |Unmerged(work)| - if h.decisions != Null then 1 else 0
  {
    assert Unmerged(more) == Unmerged(work) - {h};
    assert h.decisions != Null ==> h in Unmerged(work);
  }

  lemma MergedShrink(p: Program, c: Config, l: nat, work: set<LocalHistory>, more: set<LocalHistory>)
    requires WellFormed(p) && NoTrackedCycle(p, c) && Tracks(c, l) && l < |p| && LocalHistory(l, Null) in work
    requires OnlyMerged(p, c, LocalHistory(l, Null), work - {LocalHistory(l, Null)}, more)
    ensures MergedWeight(more, Rho(p, c), |p|) < MergedWeight(work, Rho(p, c), |p|)
  {
    var rho, targets := Rho(p, c), Successors(p, l);
    if targets == [] {
      assert more == work - {LocalHistory(l, Null)};
      WeightWithout(work, rho, l, |p|);
    } else {
      var a, b := targets[0], targets[|targets| - 1];
      assert FlowGraph(p).Edge(l, a) && FlowGraph(p).Edge(l, b);
      BeyondShrinks(p, c, l, a);
      BeyondShrinks(p, c, l, b);
      AtMostTwo(p, l);
      ReplacedWeighsLess(work, more, rho, l, a, b, |p|);
    }
  }

  /** If nothing but merged paths was queued, the working set has less left. */
  lemma QueueShrinks(
    p: Program, c: Config, h: LocalHistory, work: set<LocalHistory>, more: set<LocalHistory>)
    requires WellFormed(p) && (c.limit == 1 || NoTrackedCycle(p, c))
    requires h in work && h.location < |p| && OnlyMerged(p, c, h, work - {h}, more)
    ensures
      || |Unmerged(more)| < |Unmerged(work)|
      || (|Unmerged(more)| == |Unmerged(work)|
          && MergedWeight(more, Rho(p, c), |p|) < MergedWeight(work, Rho(p, c), |p|))
  {
    PathsShrink(work, more, h);
    if h.decisions == Null {
      assert h == LocalHistory(h.location, Null);
      if MayQueueMerged(c, h) {
        MergedShrink(p, c, h.location, work, more);
      } else {
        assert more == work - {h};
        WeightWithout(work, Rho(p, c), h.location, |p|);
      }
    }
  }

  lemma AtMostTwo(p: Program, l: nat)
    requires l < |p|
    ensures |Successors(p, l)| <= 2
    ensures forall to :: to in Successors(p, l) ==>
      to == Successors(p, l)[0] || to == Successors(p, l)[|Successors(p, l)| - 1]
  {
  }

  /** What a visit spends makes the measure less. */
  lemma SpendingIsLess<S>(
    p: Program, c: Config, rank: S -> nat, height: nat, st: PathStore<S>, work: set<LocalHistory>, h: LocalHistory,
    r: EdgeResult<LocalHistory, LocalHistory, S>)
    requires WellFormed(p) && (c.limit == 1 || NoTrackedCycle(p, c)) && h in work && h.location < |p|
    requires VisitSpends(p, c, rank, height, st, h, work - {h}, r)
    requires |r.store.states.Keys| <= |p| * c.limit
    ensures PathMeasure(p, c, rank, height, r.store, r.work).Less(PathMeasure(p, c, rank, height, st, work))
  {
    if OnlyMerged(p, c, h, work - {h}, r.work) {
      QueueShrinks(p, c, h, work, r.work);
    }
  }

  lemma VisitIsLess<S(!new), C(!new)>(
    p: Program, c: Config, dom: DomainKind<S>, sem: Semantics<S, C>, rank: S -> nat, height: nat,
    st: PathStore<S>, work: set<LocalHistory>, h: LocalHistory)
    requires c.limit >= 1 && Lawful(PathSensitive(p, c, dom, sem)) && (c.limit == 1 || NoTrackedCycle(p, c))
    requires BoundedRank(PathSensitive(p, c, dom, sem), rank, height)
    requires EngineInvariant(PathSensitive(p, c, dom, sem), st, work, {}) && h in work && WithinCount(st, c.limit)
    ensures h in st.states && h.location < |p|
    ensures VisitLowers(PathSensitive(p, c, dom, sem), PathTermination(p, c, rank, height), st, work, h)
  {
    var an := PathSensitive(p, c, dom, sem);
    assert Registered(st, an.hist, h) && an.hist.location(h) == h.location;
    VisitEffect(p, c, dom, sem, rank, height, st, work, h);
    VisitKeepsInvariant(an, st, work, h);
    var r := Visited(an, st, work, h);
    StatesFit(p, c, dom, sem, r.store);
    SpendingIsLess(p, c, rank, height, st, work, h, r);
  }

  /** With a limit of one, or without cycles of tracked jumps, every analysis of bounded rank ends. */
  lemma LimitedIsTerminating<S(!new), C(!new)>(
    p: Program, c: Config, dom: DomainKind<S>, sem: Semantics<S, C>, rank: S -> nat, height: nat)
    requires c.limit >= 1 && Lawful(PathSensitive(p, c, dom, sem)) && (c.limit == 1 || NoTrackedCycle(p, c))
    requires BoundedRank(PathSensitive(p, c, dom, sem), rank, height)
    ensures Terminating(PathSensitive(p, c, dom, sem), PathTermination(p, c, rank, height))
    ensures PathTermination(p, c, rank, height).holds(EntryStore(PathSensitive(p, c, dom, sem)), {First(0)})
  {
    var an, t := PathSensitive(p, c, dom, sem), PathTermination(p, c, rank, height);
    forall st, work, h | EngineInvariant(an, st, work, {}) && t.holds(st, work) && h in work
      ensures VisitLowers(an, t, st, work, h)
    {
      VisitIsLess(p, c, dom, sem, rank, height, st, work, h);
    }
  }

  /** The state of some history at `l` describes `c`. */
  ghost predicate PathCovered<S, C>(sem: Semantics<S, C>, states: map<LocalHistory, S>, l: nat, c: C) {
    exists h: LocalHistory :: h.location == l && h in states && sem.gamma(states[h], c)
  }

  /**
   Runs a path-sensitive analysis. Each run of the program is covered at each step by the state of some history
   where the run is, and no location has more histories than allowed.
   */
  method Analyse<S(!new), C(!new)>(
    p: Program, c: Config, dom: DomainKind<S>, ghost sem: Semantics<S, C>, ghost rank: S -> nat, ghost height: nat)
    returns (states: map<LocalHistory, S>)
    requires WellFormed(p) && SoundDomain(p, dom, sem) && InductiveProperty(p, dom, sem)
    requires BoundedRank(PathSensitive(p, c, dom, sem), rank, height)
    requires c.limit >= 1 && (c.limit == 1 || NoTrackedCycle(p, c))
    ensures forall run: seq<(nat, C)>, i :: ConcreteRun(p, sem, run) && 0 <= i < |run| ==>
      PathCovered(sem, states, run[i].0, run[i].1)
    ensures forall l: nat :: |AtLocation(states.Keys, l)| <= c.limit
  {
    LocalControlFlowHistory.IsLawful(c);
    LimitedIsTerminating(p, c, dom, sem, rank, height);
    var ai := new Interpreter<LocalHistory, LocalHistory, S, C>(p, History(c), ByHistory(), dom, sem);
    ai.Run(PathTermination(p, c, rank, height));
    states := ai.stateMap;
    DoneIsSound(p, c, dom, sem, ai.Stored());
  }

  lemma DoneIsSound<S(!new), C(!new)>(
    p: Program, c: Config, dom: DomainKind<S>, sem: Semantics<S, C>, st: PathStore<S>)
    requires WellFormed(p) && SoundDomain(p, dom, sem) && InductiveProperty(p, dom, sem)
    requires EngineInvariant(PathSensitive(p, c, dom, sem), st, {}, {}) && WithinCount(st, c.limit)
    ensures forall run: seq<(nat, C)>, i :: ConcreteRun(p, sem, run) && 0 <= i < |run| ==>
      PathCovered(sem, st.states, run[i].0, run[i].1)
    ensures forall l: nat :: |AtLocation(st.states.Keys, l)| <= c.limit
  {
    forall run: seq<(nat, C)>, i | ConcreteRun(p, sem, run) && 0 <= i < |run|
      ensures PathCovered(sem, st.states, run[i].0, run[i].1)
    {
      PathSensitiveIsSound(p, c, dom, sem, st, run, i);
    }
    StatesFit(p, c, dom, sem, st);
  }

  // --- a loop that is never left ----------------------------------------------------------------------------------

  /**
   A tracked jump to itself where merged paths have come first and only the last place is left: visiting the
   merged paths takes them for new and queues them again, even when nothing changes any more.
   */
  lemma MergedLoopIsQueuedAgain<S>(p: Program, c: Config, dom: DomainKind<S>, st: PathStore<S>, l: nat)
    requires l < |p| && p[l] == Goto(l, true) && c.kind(l) == Jump(l) && c.trackBackward
    requires
      var h := LocalHistory(l, Null);
      && h in TracesAt(st, l) && LocalHistory(l, Decision(l, true, Null)) !in TracesAt(st, l)
      && |TracesAt(st, l)| + 1 == c.limit && h in st.states
      && !dom.isBottom(dom.transform(l, l, st.states[h]))
      && dom.merge(st.states[h], dom.transform(l, l, st.states[h])) == (st.states[h], false)
    ensures Successors(p, l) == [l]
    ensures
      var h := LocalHistory(l, Null);
      VisitedEdge(History(c), ByHistory(), dom, st, h, l, {}) == EdgeResult(st, {h}, true)
  {
    var h, others := LocalHistory(l, Null), TracesAt(st, l);
    assert History(c).step(h, l, others) == New(h);
    assert others + {h} == others;
    assert st.traces[l := st.traces[l]] == st.traces && st.states[h := st.states[h]] == st.states;
  }

  /** Past a branch that is never taken, an endless loop. */
  function LoopBehindBranch(): Program {
    [Goto(2, false), Plain, Plain, Goto(3, true), EndFunction]
  }

  /** Tells whether control gets somewhere, knowing that the branch is never taken. */
  function BranchNotTaken(): DomainKind<bool> {
    DomainKind(
      false,
      (s: bool) => !s,
      true,
      (from: nat, to: nat, s: bool) => s && !(from == 0 && to == 2),
      (s: bool, t: bool) => (s || t, t && !s))
  }

  ghost function GetsThere(): Semantics<bool, bool> {
    Semantics(
      (s: bool, c: bool) => s,
      (c: bool) => true,
      (from: nat, c: bool, to: nat, c': bool) => !(from == 0 && to == 2),
      (l: nat, s: bool) => true)
  }

  function RankOf(s: bool): nat {
    if s then 1 else 0
  }

  function LimitOfTwo(): Config {
    ConfigOf(LoopBehindBranch(), true, true, 2)
  }

  ghost function Example(): Analysis<LocalHistory, LocalHistory, bool, bool> {
    PathSensitive(LoopBehindBranch(), LimitOfTwo(), BranchNotTaken(), GetsThere())
  }

  /** It meets all that is asked of an analysis but for the cycle of one tracked jump. */
  lemma ExampleIsLawful()
    ensures WellFormed(LoopBehindBranch()) && Lawful(Example()) && BoundedRank(Example(), RankOf, 1)
    ensures !NoTrackedCycle(LoopBehindBranch(), LimitOfTwo())
  {
    var p, c := LoopBehindBranch(), LimitOfTwo();
    assert WellFormed(p);
    LocalControlFlowHistory.IsLawful(c);
    assert FlowGraph(p).Edge(3, 3);
    assert TrackedPath(p, c, 3, 3, [3, 3]);
  }

  function Taken(): LocalHistory {
    LocalHistory(2, Decision(0, true, First(0).decisions))
  }

  function NotTaken(): LocalHistory {
    LocalHistory(1, Decision(0, false, First(0).decisions))
  }

  function Added(st: PathStore<bool>, h: LocalHistory, there: bool): PathStore<bool> {
    Store(st.traces[h.location := TracesAt(st, h.location) + {h}], st.states[h := there])
  }

  /** What is stored after so many turns of the loop, and what is queued. */
  function StoredAfter(i: nat): PathStore<bool> {
    if i == 0 then Store(map[0 := {First(0)}], map[First(0) := true])
    else if i == 1 then Added(Added(StoredAfter(0), Taken(), false), NotTaken(), true)
    else if i == 2 then Added(StoredAfter(1), LocalHistory(2, Null), true)
    else Added(StoredAfter(2), LocalHistory(3, Null), true)
  }

  function QueuedAfter(i: nat): LocalHistory {
    if i == 0 then First(0) else if i == 1 then NotTaken()
    else if i == 2 then LocalHistory(2, Null) else LocalHistory(3, Null)
  }

  lemma OneSuccessor<S(!new), C(!new)>(
    an: Analysis<LocalHistory, LocalHistory, S, C>, st: PathStore<S>, h: LocalHistory, to: nat)
    requires an.key(h) in st.states && an.hist.location(h) < |an.program|
    requires Successors(an.program, an.hist.location(h)) == [to]
    ensures Visited(an, st, {h}, h) == VisitedEdge(an.hist, an.key, an.dom, st, h, to, {})
  {
    var targets := Successors(an.program, an.hist.location(h));
    assert {h} - {h} == {} && targets[..0] == [];
    OneEdgeMore(an.hist, an.key, an.dom, st, h, targets, {}, 0);
    assert targets[..1] == targets;
  }

  lemma NewHere(st: PathStore<bool>, h: LocalHistory, to: nat, work: set<LocalHistory>, toP: LocalHistory)
    requires h in st.states && toP !in st.states && toP.location == to
    requires Step(LimitOfTwo(), h, to, TracesAt(st, to), h) == New(toP)
    ensures
      var there := st.states[h] && !(h.location == 0 && to == 2);
      VisitedEdge(History(LimitOfTwo()), ByHistory(), BranchNotTaken(), st, h, to, work) ==
      EdgeResult(Added(st, toP, there), if there then work + {toP} else work, there)
  {
    assert History(LimitOfTwo()).step(h, to, TracesAt(st, to)) == New(toP);
  }

  lemma TwoSuccessors<S(!new), C(!new)>(
    an: Analysis<LocalHistory, LocalHistory, S, C>, st: PathStore<S>, h: LocalHistory, a: nat, b: nat,
    r: EdgeResult<LocalHistory, LocalHistory, S>, s: EdgeResult<LocalHistory, LocalHistory, S>)
    requires an.key(h) in st.states && an.hist.location(h) < |an.program|
    requires Successors(an.program, an.hist.location(h)) == [a, b]
    requires r == VisitedEdge(an.hist, an.key, an.dom, st, h, a, {}) && an.key(h) in r.store.states
    requires s == VisitedEdge(an.hist, an.key, an.dom, r.store, h, b, r.work)
    ensures Visited(an, st, {h}, h) == EdgeResult(s.store, s.work, r.newData || s.newData)
  {
    var targets := Successors(an.program, an.hist.location(h));
    assert {h} - {h} == {} && targets[..0] == [];
    OneEdgeMore(an.hist, an.key, an.dom, st, h, targets, {}, 0);
    OneEdgeMore(an.hist, an.key, an.dom, st, h, targets, {}, 1);
    assert targets[..2] == targets;
  }

  lemma SuccessorsAre()
    ensures
      var p := LoopBehindBranch();
      && Successors(p, 0) == [2, 1] && Successors(p, 1) == [2] && Successors(p, 2) == [3] && Successors(p, 3) == [3]
  {
  }

  /** A turn with one edge, to where there is a new history. */
  lemma NewTurn(st: PathStore<bool>, h: LocalHistory, to: nat, toP: LocalHistory)
    requires h in st.states && st.states[h] && toP !in st.states && toP.location == to
    requires 0 < h.location < |LoopBehindBranch()| && Successors(LoopBehindBranch(), h.location) == [to]
    requires Step(LimitOfTwo(), h, to, TracesAt(st, to), h) == New(toP)
    ensures Visited(Example(), st, {h}, h) == EdgeResult(Added(st, toP, true), {toP}, true)
  {
    OneSuccessor(Example(), st, h, to);
    NewHere(st, h, to, {}, toP);
    assert {} + {toP} == {toP};
  }

  lemma BranchSteps()
    ensures Step(LimitOfTwo(), First(0), 2, {}, First(0)) == New(Taken())
    ensures Step(LimitOfTwo(), First(0), 1, {}, First(0)) == New(NotTaken())
  {
  }

  /** The branch goes to 2 first, where the state stays bottom, and then to 1. */
  lemma BranchesFrom(st: PathStore<bool>)
    requires TracesAt(st, 2) == {} && TracesAt(st, 1) == {} && First(0) in st.states && st.states[First(0)]
    requires Taken() !in st.states && NotTaken() !in st.states
    requires Successors(LoopBehindBranch(), 0) == [2, 1]
    ensures Visited(Example(), st, {First(0)}, First(0)) ==
      EdgeResult(Added(Added(st, Taken(), false), NotTaken(), true), {NotTaken()}, true)
  {
    var h, mid := First(0), Added(st, Taken(), false);
    BranchSteps();
    NewHere(st, h, 2, {}, Taken());
    AddedIs(st, Taken(), false, 1, h);
    AddedIs(st, Taken(), false, 1, NotTaken());
    NewHere(mid, h, 1, {}, NotTaken());
    var last := Added(mid, NotTaken(), true);
    assert {} + {NotTaken()} == {NotTaken()};
    TwoSuccessors(Example(), st, h, 2, 1, EdgeResult(mid, {}, false), EdgeResult(last, {NotTaken()}, true));
  }

  lemma AddedIs(st: PathStore<bool>, h: LocalHistory, there: bool, l: nat, q: LocalHistory)
    ensures TracesAt(Added(st, h, there), l) == TracesAt(st, l) + if l == h.location then {h} else {}
    ensures q in Added(st, h, there).states <==> q == h || q in st.states
    ensures q != h && q in st.states ==> Added(st, h, there).states[q] == st.states[q]
    ensures Added(st, h, there).states[h] == there
  {
  }

  /** What there is when each of the turns begins. */
  lemma StoredIs()
    ensures
      var st := StoredAfter(0);
      && TracesAt(st, 2) == {} && TracesAt(st, 1) == {} && First(0) in st.states && st.states[First(0)]
      && Taken() !in st.states && NotTaken() !in st.states
    ensures
      var st := StoredAfter(1);
      && TracesAt(st, 2) == {Taken()} && TracesAt(st, 3) == {} && NotTaken() in st.states && st.states[NotTaken()]
      && LocalHistory(2, Null) !in st.states && LocalHistory(3, Null) !in st.states
  {
    var st := StoredAfter(0);
    var mid := Added(st, Taken(), false);
    forall l: nat, q
      ensures TracesAt(mid, l) == TracesAt(st, l) + if l == 2 then {Taken()} else {}
      ensures TracesAt(StoredAfter(1), l) == TracesAt(mid, l) + if l == 1 then {NotTaken()} else {}
      ensures q in StoredAfter(1).states <==> q == NotTaken() || q == Taken() || q in st.states
    {
      AddedIs(st, Taken(), false, l, q);
      AddedIs(mid, NotTaken(), true, l, q);
    }
    AddedIs(mid, NotTaken(), true, 1, NotTaken());
  }

  lemma FirstTurn()
    ensures Visited(Example(), StoredAfter(0), {QueuedAfter(0)}, QueuedAfter(0)) ==
      EdgeResult(StoredAfter(1), {QueuedAfter(1)}, true)
  {
    SuccessorsAre();
    StoredIs();
    BranchesFrom(StoredAfter(0));
  }

  lemma OnlyLastPlaceLeft(others: set<LocalHistory>)
    requires others == {Taken()}
    ensures Step(LimitOfTwo(), NotTaken(), 2, others, NotTaken()) == New(LocalHistory(2, Null))
  {
    assert |others| == 1;
  }

  /** At 2, only the last place is left, which is for merged paths. */
  lemma SecondTurn()
    ensures Visited(Example(), StoredAfter(1), {QueuedAfter(1)}, QueuedAfter(1)) ==
      EdgeResult(StoredAfter(2), {QueuedAfter(2)}, true)
  {
    var st := StoredAfter(1);
    SuccessorsAre();
    StoredIs();
    OnlyLastPlaceLeft(TracesAt(st, 2));
    NewTurn(st, NotTaken(), 2, LocalHistory(2, Null));
  }

  lemma FirstPlaceTaken()
    ensures Step(LimitOfTwo(), LocalHistory(2, Null), 3, {}, LocalHistory(2, Null)) == New(LocalHistory(3, Null))
  {
  }

  lemma ThirdFrom(before: PathStore<bool>, m: LocalHistory, n: LocalHistory)
    requires m == LocalHistory(2, Null) && n == LocalHistory(3, Null)
    requires TracesAt(before, 3) == {} && n !in before.states
    ensures Visited(Example(), Added(before, m, true), {m}, m) ==
      EdgeResult(Added(Added(before, m, true), n, true), {n}, true)
  {
    SuccessorsAre();
    FirstPlaceTaken();
    AddedIs(before, m, true, 3, n);
    NewTurn(Added(before, m, true), m, 3, n);
  }

  lemma ThirdTurn()
    ensures Visited(Example(), StoredAfter(2), {QueuedAfter(2)}, QueuedAfter(2)) ==
      EdgeResult(StoredAfter(3), {QueuedAfter(3)}, true)
  {
    StoredIs();
    ThirdFrom(StoredAfter(1), LocalHistory(2, Null), LocalHistory(3, Null));
  }

  lemma TurnsOnTheSpot(st: PathStore<bool>, h: LocalHistory)
    requires h == LocalHistory(3, Null) && h in st.states && st.states[h] && 3 in st.traces && st.traces[3] == {h}
    ensures Visited(Example(), st, {h}, h) == EdgeResult(st, {h}, true)
  {
    SuccessorsAre();
    OneSuccessor(Example(), st, h, 3);
    MergedLoopIsQueuedAgain(LoopBehindBranch(), LimitOfTwo(), BranchNotTaken(), st, 3);
  }

  lemma FurtherTurn()
    ensures Visited(Example(), StoredAfter(3), {QueuedAfter(3)}, QueuedAfter(3)) ==
      EdgeResult(StoredAfter(3), {QueuedAfter(3)}, true)
  {
    var before, m, n := StoredAfter(1), LocalHistory(2, Null), LocalHistory(3, Null);
    StoredIs();
    AddedIs(before, m, true, 3, n);
    AddedIs(Added(before, m, true), n, true, 3, n);
    TurnsOnTheSpot(Added(Added(before, m, true), n, true), n);
  }

  lemma TurnAfter(i: nat)
    ensures Visited(Example(), StoredAfter(i), {QueuedAfter(i)}, QueuedAfter(i)) ==
      EdgeResult(StoredAfter(i + 1), {QueuedAfter(i + 1)}, true)
  {
    if i == 0 {
      FirstTurn();
    } else if i == 1 {
      SecondTurn();
    } else if i == 2 {
      ThirdTurn();
    } else {
      assert StoredAfter(i) == StoredAfter(3) && StoredAfter(i + 1) == StoredAfter(3);
      FurtherTurn();
    }
  }

  /** However often the loop is turned, something is queued; from the third turn on, nothing changes any more. */
  lemma {:induction false} EndlessLoopIsNeverLeft(run: seq<(PathStore<bool>, set<LocalHistory>)>, i: nat)
    requires LoopRun(Example(), run) && i < |run|
    ensures run[i].1 != {} && (i >= 3 ==> run[i] == (StoredAfter(3), {LocalHistory(3, Null)}))
  {
    TurnsAre(run, i);
  }

  lemma {:induction false} TurnsAre(run: seq<(PathStore<bool>, set<LocalHistory>)>, i: nat)
    requires LoopRun(Example(), run) && i < |run|
    ensures run[i] == (StoredAfter(i), {QueuedAfter(i)})
  {
    if i > 0 {
      TurnsAre(run, i - 1);
      TurnAfter(i - 1);
      assert LoopTurn(Example(), run[i - 1], run[i]);
    }
  }

  lemma HoldsNext<S(!new), C(!new)>(
    an: Analysis<LocalHistory, LocalHistory, S, C>, t: Termination<LocalHistory, LocalHistory, S>,
    st: PathStore<S>, h: LocalHistory, r: EdgeResult<LocalHistory, LocalHistory, S>)
    requires Lawful(an) && Terminating(an, t) && EngineInvariant(an, st, {h}, {}) && t.holds(st, {h})
    requires an.key(h) in st.states && an.hist.location(h) < |an.program| && r == Visited(an, st, {h}, h)
    ensures EngineInvariant(an, r.store, r.work, {}) && t.holds(r.store, r.work)
    ensures t.measure(r.store, r.work).Less(t.measure(st, {h}))
  {
    VisitKeepsInvariant(an, st, {h}, h);
    assert h in {h} && VisitLowers(an, t, st, {h}, h);
  }

  lemma {:induction false} HoldsAfter(t: Termination<LocalHistory, LocalHistory, bool>, i: nat)
    requires Terminating(Example(), t) && t.holds(EntryStore(Example()), {First(0)})
    ensures EngineInvariant(Example(), StoredAfter(i), {QueuedAfter(i)}, {})
    ensures t.holds(StoredAfter(i), {QueuedAfter(i)})
    decreases i
  {
    ExampleIsLawful();
    if i == 0 {
      EntryInvariant(Example());
    } else {
      HoldsAfter(t, i - 1);
      TurnAfter(i - 1);
      var next := EdgeResult(StoredAfter(i), {QueuedAfter(i)}, true);
      HoldsNext(Example(), t, StoredAfter(i - 1), QueuedAfter(i - 1), next);
    }
  }

  /** So no measure gets less. */
  lemma NothingGetsLess(t: Termination<LocalHistory, LocalHistory, bool>)
    ensures !(Terminating(Example(), t) && t.holds(EntryStore(Example()), {First(0)}))
  {
    if Terminating(Example(), t) && t.holds(EntryStore(Example()), {First(0)}) {
      ExampleIsLawful();
      HoldsAfter(t, 3);
      FurtherTurn();
      HoldsNext(Example(), t, StoredAfter(3), QueuedAfter(3), EdgeResult(StoredAfter(3), {QueuedAfter(3)}, true));
    }
  }
}
