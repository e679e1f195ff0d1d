/**
 The fixed-point engine of the abstract interpreter for one function: a working set of
 histories, each visited by computing all its outgoing edges, with the stored states
 merged in place. Histories, domains and storage are parameters.
 */
module AbstractInterpreter {
  import opened Cfg
  import opened GotoProgram

  // --- the pluggable parts ---------------------------------------------------------------

  datatype StepResult<+H> = New(history: H) | Merged(history: H) | Blocked

  /** `less` orders the working set; `step` is told which histories are already at the target. */
  datatype HistoryKind<!H> = HistoryKind(
    epoch: nat -> H,
    location: H -> nat,
    less: (H, H) -> bool,
    step: (H, nat, set<H>) -> StepResult<H>)

  /** `merge` returns the joined state and whether the destination changed. */
  datatype DomainKind<!S> = DomainKind(
    bottom: S,
    isBottom: S -> bool,
    entry: S,
    transform: (nat, nat, S) -> S,
    merge: (S, S) -> (S, bool))

  /**
   What the states stand for: the concrete states they describe, the concrete program they
   are about, and a property of stored states that all operations keep.
   */
  datatype Semantics<!S, !C> = Semantics(
    gamma: (S, C) -> bool,
    initial: C -> bool,
    step: (nat, C, nat, C) -> bool,
    property: (nat, S) -> bool)

  /** Finitely many histories can arise, and states can only grow a bounded number of times. */
  datatype Finiteness<!H, !S> = Finiteness(universe: seq<H>, rank: S -> nat, height: nat)

  /** All parts of one analysis; `key` chooses the storage: by location or by history. */
  datatype Analysis<!H, !K, !S, !C> = Analysis(
    program: Program,
    hist: HistoryKind<H>,
    key: H -> K,
    dom: DomainKind<S>,
    sem: Semantics<S, C>)

  /** `less` is a strict order, and a step never refuses a local edge and lands on its target. */
  ghost predicate LawfulHistory<H(!new)>(hist: HistoryKind<H>) {
    && (forall l :: hist.location(hist.epoch(l)) == l)
    && (forall a :: !hist.less(a, a))
    && (forall a, b, c :: hist.less(a, b) && hist.less(b, c) ==> hist.less(a, c))
    && (forall p, to: nat, others :: AllAt(hist, others, to) ==> LawfulStep(hist, p, to, others))
  }

  ghost predicate AllAt<H>(hist: HistoryKind<H>, others: set<H>, to: nat) {
    forall o :: o in others ==> hist.location(o) == to
  }

  ghost predicate LawfulStep<H>(hist: HistoryKind<H>, p: H, to: nat, others: set<H>) {
    var r := hist.step(p, to, others);
    !r.Blocked? && hist.location(r.history) == to && (r.Merged? ==> r.history in others)
  }

  /** Histories that share a state share a location. */
  ghost predicate LawfulKey<H(!new), K(!new)>(hist: HistoryKind<H>, key: H -> K) {
    forall a, b :: key(a) == key(b) ==> hist.location(a) == hist.location(b)
  }

  /** The operations of the domain over-approximate the concrete program. */
  ghost predicate SoundDomain<S(!new), C(!new)>(program: Program, dom: DomainKind<S>, sem: Semantics<S, C>) {
    && dom.isBottom(dom.bottom)
    && (forall s, c :: sem.gamma(s, c) ==> !dom.isBottom(s))
    && (forall c :: sem.initial(c) ==> sem.gamma(dom.entry, c))
    && SoundTransform(program, dom, sem)
    && SoundMerge(dom, sem)
  }

  ghost predicate SoundTransform<S(!new), C(!new)>(program: Program, dom: DomainKind<S>, sem: Semantics<S, C>) {
    forall from: nat, to: nat, s, c, c' ::
      from < |program| && to in Successors(program, from) && sem.gamma(s, c) && sem.step(from, c, to, c') ==>
      sem.gamma(dom.transform(from, to, s), c')
  }

  ghost predicate SoundMerge<S(!new), C(!new)>(dom: DomainKind<S>, sem: Semantics<S, C>) {
    && (forall s, t, c :: sem.gamma(s, c) || sem.gamma(t, c) ==> sem.gamma(dom.merge(s, t).0, c))
    && (forall s, t, c :: !dom.merge(s, t).1 && sem.gamma(dom.merge(s, t).0, c) ==> sem.gamma(s, c))
  }

  /** Control flow can get to `l` from the entry. */
  ghost predicate CanReach(program: Program, l: nat)
    requires WellFormed(program)
  {
    Reaches(FlowGraph(program), 0, l)
  }

  lemma CanReachNext(program: Program, from: nat, to: nat)
    requires WellFormed(program) && CanReach(program, from)
    requires from < |program| && to in Successors(program, from)
    ensures CanReach(program, to)
  {
    var path: seq<nat> :| PathBetween(FlowGraph(program), 0, from, path);
    PathExtend(FlowGraph(program), path, to);
    assert PathBetween(FlowGraph(program), 0, to, path + [to]);
  }

  /** A path of at least one step leads from `m` to `n`. */
  ghost predicate LeadsTo(p: Program, m: nat, n: nat)
    requires WellFormed(p)
  {
    exists path: seq<nat> :: PathBetween(FlowGraph(p), m, n, path) && |path| > 1
  }

  /** What leads to `from`, and `from` itself, leads on to `to`. */
  lemma LeadsOn(p: Program, m: nat, from: nat, to: nat)
    requires WellFormed(p) && FlowGraph(p).Edge(from, to) && (m == from || LeadsTo(p, m, from))
    ensures LeadsTo(p, m, to)
  {
    var g := FlowGraph(p);
    if m == from {
      assert PathBetween(g, m, to, [m, to]);
    } else {
      var path: seq<nat> :| PathBetween(g, m, from, path) && |path| > 1;
      PathExtend(g, path, to);
      assert PathBetween(g, m, to, path + [to]);
    }
  }

  /** The property holds of the entry state and is kept by the domain operations. */
  ghost predicate InductiveProperty<S(!new), C(!new)>(program: Program, dom: DomainKind<S>, sem: Semantics<S, C>)
    requires WellFormed(program)
  {
    && (forall l: nat :: sem.property(l, dom.bottom))
    && sem.property(0, dom.entry)
    && (forall l: nat, s, t :: sem.property(l, s) && sem.property(l, t) ==> sem.property(l, dom.merge(s, t).0))
    && (forall from: nat, to: nat, s ::
      from < |program| && to in Successors(program, from) && CanReach(program, from) && sem.property(from, s) ==>
      sem.property(to, dom.transform(from, to, s)))
  }

  /** The parts meet their contracts. */
  ghost predicate Lawful<H(!new), K(!new), S(!new), C(!new)>(an: Analysis<H, K, S, C>) {
    && WellFormed(an.program)
    && LawfulHistory(an.hist)
    && LawfulKey(an.hist, an.key)
    && SoundDomain(an.program, an.dom, an.sem)
    && InductiveProperty(an.program, an.dom, an.sem)
  }

  // --- the store --------------------------------------------------------------------------

  /** The histories seen at each location, and a state per storage key. */
  datatype Store<!H, !K, S> = Store(traces: map<nat, set<H>>, states: map<K, S>)

  function TracesAt<H, K, S>(st: Store<H, K, S>, l: nat): set<H> {
    if l in st.traces then st.traces[l] else {}
  }

  function StateOr<H, K, S>(st: Store<H, K, S>, k: K, default: S): S {
    if k in st.states then st.states[k] else default
  }

  ghost predicate Registered<H, K, S>(st: Store<H, K, S>, hist: HistoryKind<H>, h: H) {
    h in TracesAt(st, hist.location(h))
  }

  /** Histories sit at their own location in the program, and they and the states go together. */
  ghost predicate Populated<H(!new), K(!new), S(!new), C(!new)>(an: Analysis<H, K, S, C>, st: Store<H, K, S>) {
    && (forall l, h :: l in st.traces && h in st.traces[l] ==> an.hist.location(h) == l < |an.program|)
    && (forall h :: Registered(st, an.hist, h) ==> an.key(h) in st.states)
    && (forall k :: k in st.states ==> exists h :: Registered(st, an.hist, h) && an.key(h) == k)
  }

  /** Some history stored at `l` has a state that describes `c`. */
  ghost predicate Covered<H(!new), K(!new), S, C>(an: Analysis<H, K, S, C>, st: Store<H, K, S>, l: nat, c: C) {
    exists h :: h in TracesAt(st, l) && an.key(h) in st.states && an.sem.gamma(st.states[an.key(h)], c)
  }

  /** The concrete step from `c` to `c'` is covered, if the state of `h` describes `c` at all. */
  ghost predicate SettledStep<H(!new), K(!new), S, C>(
    an: Analysis<H, K, S, C>, st: Store<H, K, S>, h: H, to: nat, c: C, c': C)
    requires an.key(h) in st.states
  {
    an.sem.gamma(st.states[an.key(h)], c) && an.sem.step(an.hist.location(h), c, to, c') ==>
      Covered(an, st, to, c')
  }

  ghost predicate SettledEdge<H(!new), K(!new), S, C(!new)>(
    an: Analysis<H, K, S, C>, st: Store<H, K, S>, h: H, to: nat)
    requires an.key(h) in st.states
  {
    forall c, c' :: SettledStep(an, st, h, to, c, c')
  }

  /** Every concrete step out of what the state of `h` describes is covered. */
  ghost predicate Settled<H(!new), K(!new), S, C(!new)>(an: Analysis<H, K, S, C>, st: Store<H, K, S>, h: H)
    requires an.hist.location(h) < |an.program| && an.key(h) in st.states
  {
    forall to: nat :: to in Successors(an.program, an.hist.location(h)) ==> SettledEdge(an, st, h, to)
  }

  /** `after` keeps all histories of `before` and describes at least as much. */
  ghost predicate Grown<H(!new), K(!new), S, C(!new)>(
    an: Analysis<H, K, S, C>, before: Store<H, K, S>, after: Store<H, K, S>)
  {
    && (forall l :: TracesAt(before, l) <= TracesAt(after, l))
    && (forall k :: k in before.states ==> k in after.states)
    && (forall k, c :: k in before.states && an.sem.gamma(before.states[k], c) ==> an.sem.gamma(after.states[k], c))
  }

  lemma CoveredStays<H(!new), K(!new), S, C(!new)>(
    an: Analysis<H, K, S, C>, before: Store<H, K, S>, after: Store<H, K, S>, l: nat, c: C)
    requires Grown(an, before, after) && Covered(an, before, l, c)
    ensures Covered(an, after, l, c)
  {
    var h :| h in TracesAt(before, l) && an.key(h) in before.states && an.sem.gamma(before.states[an.key(h)], c);
    assert h in TracesAt(after, l);
  }

  // --- concrete runs -----------------------------------------------------------------------

  /** A run of the concrete program from its entry, as location and state pairs. */
  ghost predicate ConcreteRun<S, C>(program: Program, sem: Semantics<S, C>, run: seq<(nat, C)>) {
    && run != []
    && run[0].0 == 0 && sem.initial(run[0].1)
    && (forall i :: 0 <= i < |run| ==> run[i].0 < |program|)
    && forall i :: 0 < i < |run| ==>
      run[i].0 in Successors(program, run[i - 1].0) && sem.step(run[i - 1].0, run[i - 1].1, run[i].0, run[i].1)
  }

  // --- the engine's invariant --------------------------------------------------------------

  /** A queued history shares the state of `h`. */
  ghost predicate Pending<H(!new), K>(work: set<H>, key: H -> K, h: H) {
    exists q :: q in work && key(q) == key(h)
  }

  /** All states are settled but those that are queued, or shared with a history in `except`. */
  ghost predicate SettledExcept<H(!new), K(!new), S(!new), C(!new)>(
    an: Analysis<H, K, S, C>, st: Store<H, K, S>, work: set<H>, except: set<H>)
    requires Populated(an, st)
  {
    forall h :: Registered(st, an.hist, h) ==>
      Pending(work, an.key, h) || Pending(except, an.key, h) || Settled(an, st, h)
  }

  /** The entry covers all initial states, histories are where control can get, and states have the property. */
  ghost predicate Anchored<H(!new), K(!new), S(!new), C(!new)>(an: Analysis<H, K, S, C>, st: Store<H, K, S>)
    requires Populated(an, st) && WellFormed(an.program)
  {
    && (forall h :: Registered(st, an.hist, h) ==> CanReach(an.program, an.hist.location(h)))
    && (forall c :: an.sem.initial(c) ==> Covered(an, st, 0, c))
    && (forall h :: Registered(st, an.hist, h) ==> an.sem.property(an.hist.location(h), st.states[an.key(h)]))
  }

  ghost predicate EngineInvariant<H(!new), K(!new), S(!new), C(!new)>(
    an: Analysis<H, K, S, C>, st: Store<H, K, S>, work: set<H>, except: set<H>)
  {
    && WellFormed(an.program)
    && Populated(an, st)
    && (forall q :: q in work ==> Registered(st, an.hist, q))
    && SettledExcept(an, st, work, except)
    && Anchored(an, st)
  }

  /** With nothing left to visit, every run of the concrete program is covered throughout. */
  lemma {:induction false} QuiescentIsSound<H(!new), K(!new), S(!new), C(!new)>(
    an: Analysis<H, K, S, C>, st: Store<H, K, S>, run: seq<(nat, C)>, i: nat)
    requires EngineInvariant(an, st, {}, {})
    requires ConcreteRun(an.program, an.sem, run) && i < |run|
    ensures Covered(an, st, run[i].0, run[i].1)
  {
    if i > 0 {
      QuiescentIsSound(an, st, run, i - 1);
      var (l, c) := run[i - 1];
      var h :| h in TracesAt(st, l) && an.key(h) in st.states && an.sem.gamma(st.states[an.key(h)], c);
      assert Registered(st, an.hist, h);
      assert Settled(an, st, h);
      assert SettledEdge(an, st, h, run[i].0);
      assert SettledStep(an, st, h, run[i].0, c, run[i].1);
    }
  }

  // --- one edge ----------------------------------------------------------------------------

  datatype EdgeResult<!H, !K, S> = EdgeResult(store: Store<H, K, S>, work: set<H>, newData: bool)

  /** The effect of one edge as a function of the store and the working set. */
  function VisitedEdge<H(==), K(==), S>(
    hist: HistoryKind<H>, key: H -> K, dom: DomainKind<S>, st: Store<H, K, S>, p: H, to: nat, work: set<H>)
    : EdgeResult<H, K, S>
    requires key(p) in st.states
  {
    var next := hist.step(p, to, TracesAt(st, to));
    if next.Blocked? then EdgeResult(st, work, false)
    else
      var toP := next.history;
      var src := dom.transform(hist.location(p), to, st.states[key(p)]);
      var (joined, changed) := dom.merge(StateOr(st, key(toP), dom.bottom), src);
      var newData := changed || (next.New? && !dom.isBottom(src));
      EdgeResult(
        Store(st.traces[to := TracesAt(st, to) + {toP}], st.states[key(toP) := joined]),
        if newData then work + {toP} else work,
        newData)
  }

  /** One more edge out of a history, after what was done so far. */
  function NextEdge<H(==), K(==), S>(
    hist: HistoryKind<H>, key: H -> K, dom: DomainKind<S>, r: EdgeResult<H, K, S>, p: H, to: nat)
    : (r': EdgeResult<H, K, S>)
    requires key(p) in r.store.states
    ensures key(p) in r'.store.states
  {
    var s := VisitedEdge(hist, key, dom, r.store, p, to, r.work);
    EdgeResult(s.store, s.work, r.newData || s.newData)
  }

  /** The effect of several edges out of one history, in turn. */
  function VisitedEdges<H(==), K(==), S>(
    hist: HistoryKind<H>, key: H -> K, dom: DomainKind<S>, st: Store<H, K, S>, p: H, targets: seq<nat>, work: set<H>)
    : (r: EdgeResult<H, K, S>)
    requires key(p) in st.states
    ensures key(p) in r.store.states
  {
    if targets == [] then EdgeResult(st, work, false)
    else
      var m := |targets| - 1;
      NextEdge(hist, key, dom, VisitedEdges(hist, key, dom, st, p, targets[..m], work), p, targets[m])
  }

  lemma OneEdgeMore<H, K, S>(
    hist: HistoryKind<H>, key: H -> K, dom: DomainKind<S>, st: Store<H, K, S>, p: H, targets: seq<nat>, work: set<H>,
    i: nat)
    requires key(p) in st.states && i < |targets|
    ensures VisitedEdges(hist, key, dom, st, p, targets[..i + 1], work) ==
      NextEdge(hist, key, dom, VisitedEdges(hist, key, dom, st, p, targets[..i], work), p, targets[i])
  {
    assert targets[..i + 1][..i] == targets[..i];
  }

  /** What holds at the start of a visit and is kept by each edge holds after any number of edges. */
  lemma {:induction false} EdgesKeep<H(!new), K(!new), S(!new)>(
    hist: HistoryKind<H>, key: H -> K, dom: DomainKind<S>, st: Store<H, K, S>, p: H, targets: seq<nat>, work: set<H>,
    inv: (EdgeResult<H, K, S>, nat) -> bool, i: nat)
    requires key(p) in st.states && inv(EdgeResult(st, work, false), 0) && i <= |targets|
    requires forall r: EdgeResult<H, K, S>, j: nat :: j < |targets| && key(p) in r.store.states && inv(r, j) ==>
      inv(NextEdge(hist, key, dom, r, p, targets[j]), j + 1)
    ensures inv(VisitedEdges(hist, key, dom, st, p, targets[..i], work), i)
  {
    if i > 0 {
      EdgesKeep(hist, key, dom, st, p, targets, work, inv, i - 1);
      OneEdgeMore(hist, key, dom, st, p, targets, work, i - 1);
    }
  }

  /** A turn of the loop: a queued history is taken out, and all edges out of it are computed. */
  ghost function Visited<H(!new), K(!new), S(!new), C(!new)>(
    an: Analysis<H, K, S, C>, st: Store<H, K, S>, work: set<H>, p: H): EdgeResult<H, K, S>
    requires an.key(p) in st.states && an.hist.location(p) < |an.program|
  {
    VisitedEdges(
      an.hist, an.key, an.dom, st, p, Successors(an.program, an.hist.location(p)), work - {p})
  }

  /** What an edge that reaches `toP` may do to the store and the working set. */
  ghost predicate EdgeDone<H(!new), K(!new), S(!new), C(!new)>(
    an: Analysis<H, K, S, C>, before: Store<H, K, S>, after: Store<H, K, S>, work: set<H>, work': set<H>, toP: H)
  {
    && WellFormed(an.program) && an.hist.location(toP) < |an.program|
    && after.traces == before.traces[an.hist.location(toP) := TracesAt(before, an.hist.location(toP)) + {toP}]
    && an.key(toP) in after.states
    && after.states == before.states[an.key(toP) := after.states[an.key(toP)]]
    && Grown(an, before, after)
    && (work' == work || work' == work + {toP})
    && (toP in work' || forall c :: an.sem.gamma(after.states[an.key(toP)], c) ==>
          an.key(toP) in before.states && an.sem.gamma(before.states[an.key(toP)], c))
    && an.sem.property(an.hist.location(toP), after.states[an.key(toP)])
    && CanReach(an.program, an.hist.location(toP))
  }

  /** An edge does what it may, and covers what the transformer yields. */
  lemma VisitedEdgeIsDone<H(!new), K(!new), S(!new), C(!new)>(
    an: Analysis<H, K, S, C>, st: Store<H, K, S>, p: H, to: nat, work: set<H>) returns (toP: H)
    requires Lawful(an) && Populated(an, st) && Anchored(an, st) && Registered(st, an.hist, p)
    requires to in Successors(an.program, an.hist.location(p))
    ensures an.hist.location(toP) == to
    ensures an.hist.step(p, to, TracesAt(st, to)) in {New(toP), Merged(toP)}
    ensures
      var r := VisitedEdge(an.hist, an.key, an.dom, st, p, to, work);
      && EdgeDone(an, st, r.store, work, r.work, toP)
      && forall c, c' :: an.sem.gamma(st.states[an.key(p)], c) && an.sem.step(an.hist.location(p), c, to, c') ==>
           Covered(an, r.store, to, c')
  {
    var others := TracesAt(st, to);
    assert AllAt(an.hist, others, to) && LawfulStep(an.hist, p, to, others);
    toP := an.hist.step(p, to, others).history;
    var r := VisitedEdge(an.hist, an.key, an.dom, st, p, to, work);
    var src := an.dom.transform(an.hist.location(p), to, st.states[an.key(p)]);
    var dest := StateOr(st, an.key(toP), an.dom.bottom);
    assert r.store.states[an.key(toP)] == an.dom.merge(dest, src).0;
    assert toP in TracesAt(r.store, to);
    PropertyOfStored(an, st, toP);
    CanReachNext(an.program, an.hist.location(p), to);
  }

  /** The property holds of whatever an edge is merged into. */
  lemma PropertyOfStored<H(!new), K(!new), S(!new), C(!new)>(an: Analysis<H, K, S, C>, st: Store<H, K, S>, h: H)
    requires Lawful(an) && Populated(an, st) && Anchored(an, st)
    ensures an.sem.property(an.hist.location(h), StateOr(st, an.key(h), an.dom.bottom))
  {
    if an.key(h) in st.states {
      var g :| Registered(st, an.hist, g) && an.key(g) == an.key(h);
    }
  }

  lemma EdgeKeepsStore<H(!new), K(!new), S(!new), C(!new)>(
    an: Analysis<H, K, S, C>, before: Store<H, K, S>, after: Store<H, K, S>, work: set<H>, work': set<H>, toP: H)
    requires Populated(an, before) && EdgeDone(an, before, after, work, work', toP)
    ensures Populated(an, after)
    ensures forall h :: Registered(after, an.hist, h) <==> Registered(before, an.hist, h) || h == toP
  {
    forall l, h | l in after.traces && h in after.traces[l]
      ensures an.hist.location(h) == l < |an.program|
    {
      if l != an.hist.location(toP) {
        assert after.traces[l] == before.traces[l];
      } else if h != toP {
        assert h in TracesAt(before, l);
      }
    }
    forall h
      ensures Registered(after, an.hist, h) <==> Registered(before, an.hist, h) || h == toP
    {
    }
    forall k | k in after.states
      ensures exists h :: Registered(after, an.hist, h) && an.key(h) == k
    {
      if k == an.key(toP) {
        assert Registered(after, an.hist, toP);
      } else {
        var h :| Registered(before, an.hist, h) && an.key(h) == k;
        assert Registered(after, an.hist, h);
      }
    }
  }

  /** A settled edge stays settled over another edge, or its history is queued by it. */
  lemma EdgeKeepsSettledEdge<H(!new), K(!new), S(!new), C(!new)>(
    an: Analysis<H, K, S, C>, before: Store<H, K, S>, after: Store<H, K, S>, work: set<H>, work': set<H>, toP: H,
    h: H, to: nat)
    requires EdgeDone(an, before, after, work, work', toP)
    requires an.key(h) in before.states && SettledEdge(an, before, h, to)
    ensures Pending(work', an.key, h) || SettledEdge(an, after, h, to)
  {
    if !Pending(work', an.key, h) {
      assert an.key(toP) == an.key(h) ==> toP !in work';
      forall c, c'
        ensures SettledStep(an, after, h, to, c, c')
      {
        assert SettledStep(an, before, h, to, c, c');
        if Covered(an, before, to, c') {
          CoveredStays(an, before, after, to, c');
        }
      }
    }
  }

  lemma PendingStays<H(!new), K(!new)>(work: set<H>, work': set<H>, key: H -> K, h: H, g: H)
    requires work <= work' && key(g) == key(h) && Pending(work, key, g)
    ensures Pending(work', key, h)
  {
  }

  lemma EdgeKeepsSettledExcept<H(!new), K(!new), S(!new), C(!new)>(
    an: Analysis<H, K, S, C>, before: Store<H, K, S>, after: Store<H, K, S>, work: set<H>, work': set<H>, toP: H,
    except: set<H>)
    requires LawfulKey(an.hist, an.key) && Populated(an, before) && Populated(an, after)
    requires EdgeDone(an, before, after, work, work', toP)
    requires forall h :: Registered(after, an.hist, h) <==> Registered(before, an.hist, h) || h == toP
    requires SettledExcept(an, before, work, except)
    ensures SettledExcept(an, after, work', except)
  {
    forall h | Registered(after, an.hist, h) && !Pending(work', an.key, h) && !Pending(except, an.key, h)
      ensures Settled(an, after, h)
    {
      forall to: nat | to in Successors(an.program, an.hist.location(h))
        ensures SettledEdge(an, after, h, to)
      {
        if an.key(h) in before.states {
          var g :| Registered(before, an.hist, g) && an.key(g) == an.key(h);
          SharedSettled(an, before, after, work, work', toP, except, g, h, to);
        } else {
          assert h == toP && toP !in work';
          assert forall c, c' :: SettledStep(an, after, h, to, c, c');
        }
      }
    }
  }

  lemma SharedSettled<H(!new), K(!new), S(!new), C(!new)>(
    an: Analysis<H, K, S, C>, before: Store<H, K, S>, after: Store<H, K, S>, work: set<H>, work': set<H>, toP: H,
    except: set<H>, g: H, h: H, to: nat)
    requires LawfulKey(an.hist, an.key) && Populated(an, before) && Populated(an, after)
    requires EdgeDone(an, before, after, work, work', toP) && SettledExcept(an, before, work, except)
    requires Registered(before, an.hist, g) && an.key(g) == an.key(h)
    requires !Pending(work', an.key, h) && !Pending(except, an.key, h)
    requires to in Successors(an.program, an.hist.location(g))
    ensures SettledEdge(an, after, h, to)
  {
    if Pending(work, an.key, g) {
      PendingStays(work, work', an.key, h, g);
    } else {
      assert !Pending(except, an.key, g);
      assert Settled(an, before, g) && SettledEdge(an, before, g, to);
      EdgeKeepsSettledEdge(an, before, after, work, work', toP, g, to);
      assert forall c, c' :: SettledStep(an, after, g, to, c, c') ==> SettledStep(an, after, h, to, c, c');
    }
  }

  lemma EdgeKeepsAnchored<H(!new), K(!new), S(!new), C(!new)>(
    an: Analysis<H, K, S, C>, before: Store<H, K, S>, after: Store<H, K, S>, work: set<H>, work': set<H>, toP: H)
    requires LawfulKey(an.hist, an.key) && WellFormed(an.program) && Populated(an, before) && Populated(an, after)
    requires EdgeDone(an, before, after, work, work', toP)
    requires Anchored(an, before)
    ensures Anchored(an, after)
  {
    forall c | an.sem.initial(c)
      ensures Covered(an, after, 0, c)
    {
      CoveredStays(an, before, after, 0, c);
    }
    forall h | Registered(after, an.hist, h)
      ensures an.sem.property(an.hist.location(h), after.states[an.key(h)])
      ensures CanReach(an.program, an.hist.location(h))
    {
      if h != toP {
        assert Registered(before, an.hist, h);
      }
    }
  }

  /** The invariant over one edge of the history being visited. */
  lemma EdgeKeepsInvariant<H(!new), K(!new), S(!new), C(!new)>(
    an: Analysis<H, K, S, C>, before: Store<H, K, S>, after: Store<H, K, S>, work: set<H>, work': set<H>, toP: H,
    except: set<H>)
    requires LawfulKey(an.hist, an.key)
    requires EdgeDone(an, before, after, work, work', toP)
    requires EngineInvariant(an, before, work, except)
    ensures EngineInvariant(an, after, work', except)
    ensures forall h :: Registered(after, an.hist, h) <==> Registered(before, an.hist, h) || h == toP
  {
    EdgeKeepsStore(an, before, after, work, work', toP);
    EdgeKeepsSettledExcept(an, before, after, work, work', toP, except);
    EdgeKeepsAnchored(an, before, after, work, work', toP);
  }

  /** One more edge of the visited history is settled, or the history is queued again. */
  lemma AfterEdge<H(!new), K(!new), S(!new), C(!new)>(
    an: Analysis<H, K, S, C>, before: Store<H, K, S>, after: Store<H, K, S>, work: set<H>, work': set<H>, toP: H,
    p: H, targets: seq<nat>, i: nat)
    requires an.key(p) in before.states && i < |targets|
    requires EdgeDone(an, before, after, work, work', toP)
    requires forall c, c' ::
      an.sem.gamma(before.states[an.key(p)], c) && an.sem.step(an.hist.location(p), c, targets[i], c') ==>
      Covered(an, after, targets[i], c')
    requires Pending(work, an.key, p) || forall j :: 0 <= j < i ==> SettledEdge(an, before, p, targets[j])
    ensures Pending(work', an.key, p) || forall j :: 0 <= j < i + 1 ==> SettledEdge(an, after, p, targets[j])
  {
    if !Pending(work', an.key, p) {
      if Pending(work, an.key, p) {
        PendingStays(work, work', an.key, p, p);
      }
      forall j | 0 <= j < i
        ensures SettledEdge(an, after, p, targets[j])
      {
        EdgeKeepsSettledEdge(an, before, after, work, work', toP, p, targets[j]);
      }
      NewEdgeSettled(an, before, after, work, work', toP, p, targets[i]);
    }
  }

  lemma NewEdgeSettled<H(!new), K(!new), S(!new), C(!new)>(
    an: Analysis<H, K, S, C>, before: Store<H, K, S>, after: Store<H, K, S>, work: set<H>, work': set<H>, toP: H,
    p: H, to: nat)
    requires EdgeDone(an, before, after, work, work', toP) && an.key(p) in before.states
    requires forall c, c' ::
      an.sem.gamma(before.states[an.key(p)], c) && an.sem.step(an.hist.location(p), c, to, c') ==>
      Covered(an, after, to, c')
    requires !Pending(work', an.key, p)
    ensures SettledEdge(an, after, p, to)
  {
    assert an.key(toP) == an.key(p) ==> toP !in work';
    forall c, c'
      ensures SettledStep(an, after, p, to, c, c')
    {
    }
  }

  /** The first edges keep the invariant, and are settled unless the history is queued again. */
  ghost predicate PartlyVisited<H(!new), K(!new), S(!new), C(!new)>(
    an: Analysis<H, K, S, C>, p: H, work: set<H>, r: EdgeResult<H, K, S>, i: nat)
  {
    && Registered(r.store, an.hist, p) && EngineInvariant(an, r.store, r.work, {p})
    && i <= |Successors(an.program, an.hist.location(p))|
    && (Pending(r.work, an.key, p) || forall j :: 0 <= j < i ==>
          SettledEdge(an, r.store, p, Successors(an.program, an.hist.location(p))[j]))
    && (!r.newData ==> r.work == work)
  }

  /** Everything a visit needs to know about one of its edges. */
  lemma EdgeStep<H(!new), K(!new), S(!new), C(!new)>(
    an: Analysis<H, K, S, C>, p: H, work: set<H>, r: EdgeResult<H, K, S>, i: nat)
    requires Lawful(an) && PartlyVisited(an, p, work, r, i)
    requires i < |Successors(an.program, an.hist.location(p))|
    ensures PartlyVisited(
      an, p, work,
      NextEdge(an.hist, an.key, an.dom, r, p, Successors(an.program, an.hist.location(p))[i]), i + 1)
  {
    var targets := Successors(an.program, an.hist.location(p));
    var s := VisitedEdge(an.hist, an.key, an.dom, r.store, p, targets[i], r.work);
    var toP := VisitedEdgeIsDone(an, r.store, p, targets[i], r.work);
    EdgeKeepsInvariant(an, r.store, s.store, r.work, s.work, toP, {p});
    AfterEdge(an, r.store, s.store, r.work, s.work, toP, p, targets, i);
  }

  lemma EdgesKeepInvariant<H(!new), K(!new), S(!new), C(!new)>(
    an: Analysis<H, K, S, C>, st: Store<H, K, S>, p: H, work: set<H>, i: nat)
    requires Lawful(an) && PartlyVisited(an, p, work, EdgeResult(st, work, false), 0)
    requires i <= |Successors(an.program, an.hist.location(p))|
    ensures PartlyVisited(
      an, p, work,
      VisitedEdges(an.hist, an.key, an.dom, st, p, Successors(an.program, an.hist.location(p))[..i], work), i)
  {
    var targets := Successors(an.program, an.hist.location(p));
    var inv := (r: EdgeResult<H, K, S>, j: nat) => PartlyVisited(an, p, work, r, j);
    forall r: EdgeResult<H, K, S>, j: nat | j < |targets| && an.key(p) in r.store.states && inv(r, j)
      ensures inv(NextEdge(an.hist, an.key, an.dom, r, p, targets[j]), j + 1)
    {
      EdgeStep(an, p, work, r, j);
    }
    EdgesKeep(an.hist, an.key, an.dom, st, p, targets, work, inv, i);
  }

  /** Once all its edges are done, the visited history needs no exception any more. */
  lemma VisitDone<H(!new), K(!new), S(!new), C(!new)>(
    an: Analysis<H, K, S, C>, st: Store<H, K, S>, work: set<H>, p: H)
    requires LawfulKey(an.hist, an.key) && Registered(st, an.hist, p)
    requires EngineInvariant(an, st, work, {p})
    requires Pending(work, an.key, p) || Settled(an, st, p)
    ensures EngineInvariant(an, st, work, {})
  {
    forall h | Registered(st, an.hist, h)
      ensures Pending(work, an.key, h) || Settled(an, st, h)
    {
      if an.key(h) == an.key(p) {
        if Pending(work, an.key, p) {
          PendingStays(work, work, an.key, h, p);
        } else {
          forall to: nat | to in Successors(an.program, an.hist.location(h))
            ensures SettledEdge(an, st, h, to)
          {
            assert SettledEdge(an, st, p, to);
            assert forall c, c' :: SettledStep(an, st, p, to, c, c') ==> SettledStep(an, st, h, to, c, c');
          }
        }
      } else {
        assert !Pending({p}, an.key, h);
      }
    }
  }

  /** Taking a history out of the working set makes it the exception. */
  lemma VisitStarts<H(!new), K(!new), S(!new), C(!new)>(
    an: Analysis<H, K, S, C>, st: Store<H, K, S>, work: set<H>, p: H)
    requires EngineInvariant(an, st, work, {}) && p in work
    ensures EngineInvariant(an, st, work - {p}, {p})
  {
    forall h | Registered(st, an.hist, h)
      ensures Pending(work - {p}, an.key, h) || Pending({p}, an.key, h) || Settled(an, st, h)
    {
      if Pending(work, an.key, h) {
        var q :| q in work && an.key(q) == an.key(h);
        assert q in work - {p} || q in {p};
      }
    }
  }

  /** A turn of the loop keeps the invariant. */
  lemma VisitKeepsInvariant<H(!new), K(!new), S(!new), C(!new)>(
    an: Analysis<H, K, S, C>, st: Store<H, K, S>, work: set<H>, p: H)
    requires Lawful(an) && EngineInvariant(an, st, work, {}) && p in work
    ensures PartlyVisited(an, p, work - {p}, EdgeResult(st, work - {p}, false), 0)
    ensures
      var r := Visited(an, st, work, p);
      EngineInvariant(an, r.store, r.work, {}) && (!r.newData ==> r.work == work - {p})
  {
    var targets := Successors(an.program, an.hist.location(p));
    VisitStarts(an, st, work, p);
    EdgesKeepInvariant(an, st, p, work - {p}, |targets|);
    assert targets[..|targets|] == targets;
    var r := Visited(an, st, work, p);
    VisitDone(an, r.store, r.work, p);
  }

  /** Each edge of a visit keeps `inv`. */
  ghost predicate KeptByEdges<H(!new), K(!new), S(!new), C(!new)>(
    an: Analysis<H, K, S, C>, work: set<H>, p: H, inv: EdgeResult<H, K, S> -> bool)
  {
    forall r: EdgeResult<H, K, S>, i: nat ::
      PartlyVisited(an, p, work, r, i) && i < |Successors(an.program, an.hist.location(p))| && inv(r) ==>
      inv(NextEdge(an.hist, an.key, an.dom, r, p, Successors(an.program, an.hist.location(p))[i]))
  }

  lemma EdgeKeepsBoth<H(!new), K(!new), S(!new), C(!new)>(
    an: Analysis<H, K, S, C>, work: set<H>, p: H, inv: EdgeResult<H, K, S> -> bool, r: EdgeResult<H, K, S>, i: nat)
    requires Lawful(an) && KeptByEdges(an, work, p, inv)
    requires PartlyVisited(an, p, work, r, i) && i < |Successors(an.program, an.hist.location(p))| && inv(r)
    ensures
      var next := NextEdge(an.hist, an.key, an.dom, r, p, Successors(an.program, an.hist.location(p))[i]);
      PartlyVisited(an, p, work, next, i + 1) && inv(next)
  {
    EdgeStep(an, p, work, r, i);
  }

  lemma KeptByAllEdges<H(!new), K(!new), S(!new), C(!new)>(
    an: Analysis<H, K, S, C>, st: Store<H, K, S>, work: set<H>, p: H, inv: EdgeResult<H, K, S> -> bool)
    requires Lawful(an) && PartlyVisited(an, p, work, EdgeResult(st, work, false), 0)
    requires inv(EdgeResult(st, work, false)) && KeptByEdges(an, work, p, inv)
    ensures
      var targets := Successors(an.program, an.hist.location(p));
      inv(VisitedEdges(an.hist, an.key, an.dom, st, p, targets[..|targets|], work))
  {
    var targets := Successors(an.program, an.hist.location(p));
    var both := (r: EdgeResult<H, K, S>, i: nat) => PartlyVisited(an, p, work, r, i) && inv(r);
    forall r: EdgeResult<H, K, S>, i: nat | i < |targets| && an.key(p) in r.store.states && both(r, i)
      ensures both(NextEdge(an.hist, an.key, an.dom, r, p, targets[i]), i + 1)
    {
      EdgeKeepsBoth(an, work, p, inv, r, i);
    }
    hide *;
    EdgesKeep(an.hist, an.key, an.dom, st, p, targets, work, both, |targets|);
  }

  /** What else holds at the start of a visit and is kept by each of its edges holds afterwards. */
  lemma VisitKeeps<H(!new), K(!new), S(!new), C(!new)>(
    an: Analysis<H, K, S, C>, st: Store<H, K, S>, work: set<H>, p: H, inv: EdgeResult<H, K, S> -> bool)
    requires Lawful(an) && EngineInvariant(an, st, work, {}) && p in work
    requires inv(EdgeResult(st, work - {p}, false)) && KeptByEdges(an, work - {p}, p, inv)
    ensures inv(Visited(an, st, work, p))
  {
    var targets := Successors(an.program, an.hist.location(p));
    VisitKeepsInvariant(an, st, work, p);
    KeptByAllEdges(an, st, work - {p}, p, inv);
    assert targets[..|targets|] == targets;
  }

  // --- termination -------------------------------------------------------------------------

  /** Four numbers that are compared in order. */
  datatype Measure = Measure(first: nat, second: nat, third: nat, fourth: nat) {
    predicate Less(m: Measure) {
      || first < m.first
      || (first == m.first && second < m.second)
      || (first == m.first && second == m.second && third < m.third)
      || (first == m.first && second == m.second && third == m.third && fourth < m.fourth)
    }
  }

  /** Why the loop ends: what else holds at each turn, and what gets less. */
  datatype Termination<!H, !K, !S> = Termination(
    holds: (Store<H, K, S>, set<H>) -> bool,
    measure: (Store<H, K, S>, set<H>) -> Measure)

  ghost predicate VisitLowers<H(!new), K(!new), S(!new), C(!new)>(
    an: Analysis<H, K, S, C>, t: Termination<H, K, S>, st: Store<H, K, S>, work: set<H>, p: H)
    requires an.key(p) in st.states && an.hist.location(p) < |an.program|
  {
    var r := Visited(an, st, work, p);
    t.holds(r.store, r.work) && t.measure(r.store, r.work).Less(t.measure(st, work))
  }

  /** Whichever queued history is visited, something gets less. */
  ghost predicate Terminating<H(!new), K(!new), S(!new), C(!new)>(
    an: Analysis<H, K, S, C>, t: Termination<H, K, S>)
  {
    forall st, work, p :: EngineInvariant(an, st, work, {}) && t.holds(st, work) && p in work ==>
      VisitLowers(an, t, st, work, p)
  }

  /** The store to start with. */
  function EntryStore<H(==), K(==), S, C>(an: Analysis<H, K, S, C>): Store<H, K, S> {
    var p := an.hist.epoch(0);
    Store(map[an.hist.location(p) := {p}], map[an.key(p) := an.dom.entry])
  }

  /** The turns of the loop from the start, each for a history that no other in the working set precedes. */
  ghost predicate LoopRun<H(!new), K(!new), S(!new), C(!new)>(
    an: Analysis<H, K, S, C>, run: seq<(Store<H, K, S>, set<H>)>)
  {
    && run != [] && run[0] == (EntryStore(an), {an.hist.epoch(0)})
    && forall i :: 0 < i < |run| ==> LoopTurn(an, run[i - 1], run[i])
  }

  ghost predicate LoopTurn<H(!new), K(!new), S(!new), C(!new)>(
    an: Analysis<H, K, S, C>, before: (Store<H, K, S>, set<H>), after: (Store<H, K, S>, set<H>))
  {
    exists p ::
      && p in before.1 && (forall q :: q in before.1 ==> !an.hist.less(q, p))
      && an.key(p) in before.0.states && an.hist.location(p) < |an.program|
      && after == (Visited(an, before.0, before.1, p).store, Visited(an, before.0, before.1, p).work)
  }

  // --- finitely many histories ---------------------------------------------------------------

  /** The ranks of states are bounded, and a merge that changes one raises it. */
  ghost predicate BoundedRank<H(!new), K(!new), S(!new), C(!new)>(
    an: Analysis<H, K, S, C>, rank: S -> nat, height: nat)
  {
    && (forall l: nat, s :: an.sem.property(l, s) ==> rank(s) <= height)
    && (forall l: nat, s, t :: an.sem.property(l, s) && an.sem.property(l, t) ==> RankGrows(an.dom, rank, s, t))
  }

  ghost predicate FiniteAnalysis<H(!new), K(!new), S(!new), C(!new)>(
    an: Analysis<H, K, S, C>, fin: Finiteness<H, S>)
  {
    && BoundedRank(an, fin.rank, fin.height)
    && (forall p, to: nat, others :: p in fin.universe && to < |an.program| && AllAt(an.hist, others, to) ==>
          StepStaysFinite(an.hist, fin, p, to, others))
  }

  ghost predicate RankGrows<S>(dom: DomainKind<S>, rank: S -> nat, s: S, t: S) {
    var m := dom.merge(s, t);
    rank(m.0) >= rank(s) && (m.1 ==> rank(m.0) > rank(s))
  }

  /** A new history is one of the universe and really is new. */
  ghost predicate StepStaysFinite<H, S>(hist: HistoryKind<H>, fin: Finiteness<H, S>, p: H, to: nat, others: set<H>) {
    var r := hist.step(p, to, others);
    r.New? ==> r.history in fin.universe && r.history !in others
  }

  ghost predicate WithinUniverse<H(!new), K, S>(st: Store<H, K, S>, hist: HistoryKind<H>, fin: Finiteness<H, S>) {
    forall h :: Registered(st, hist, h) ==> h in fin.universe
  }

  /** How much the state of a history can still grow, and whether it is still to be seen. */
  ghost function Room<H, K, S, C>(
    an: Analysis<H, K, S, C>, fin: Finiteness<H, S>, st: Store<H, K, S>, h: H): nat
  {
    var rank := fin.rank(StateOr(st, an.key(h), an.dom.bottom));
    (if rank <= fin.height then fin.height - rank else 0) + (if Registered(st, an.hist, h) then 0 else 1)
  }

  ghost function TotalRoom<H, K, S, C>(
    an: Analysis<H, K, S, C>, fin: Finiteness<H, S>, st: Store<H, K, S>, hs: seq<H>): nat
  {
    if hs == [] then 0 else Room(an, fin, st, hs[0]) + TotalRoom(an, fin, st, hs[1..])
  }

  /** If no history gains room the total does not grow; if one of them loses room it shrinks. */
  lemma {:induction false} TotalRoomShrinks<H(!new), K(!new), S(!new), C(!new)>(
    an: Analysis<H, K, S, C>, fin: Finiteness<H, S>, before: Store<H, K, S>, after: Store<H, K, S>,
    hs: seq<H>, toP: H)
    requires forall h :: h in hs ==> Room(an, fin, after, h) <= Room(an, fin, before, h)
    ensures TotalRoom(an, fin, after, hs) <= TotalRoom(an, fin, before, hs)
    ensures toP in hs && Room(an, fin, after, toP) < Room(an, fin, before, toP) ==>
      TotalRoom(an, fin, after, hs) < TotalRoom(an, fin, before, hs)
  {
    if hs != [] {
      assert hs == [hs[0]] + hs[1..];
      TotalRoomShrinks(an, fin, before, after, hs[1..], toP);
    }
  }

  lemma RoomOfTarget<H(!new), K(!new), S(!new), C(!new)>(
    an: Analysis<H, K, S, C>, fin: Finiteness<H, S>, before: Store<H, K, S>, after: Store<H, K, S>,
    work: set<H>, work': set<H>, toP: H, fresh_: bool)
    requires EdgeDone(an, before, after, work, work', toP) && FiniteAnalysis(an, fin)
    requires WithinUniverse(before, an.hist, fin) && toP in fin.universe
    requires forall h :: Registered(after, an.hist, h) <==> Registered(before, an.hist, h) || h == toP
    requires an.sem.property(an.hist.location(toP), StateOr(before, an.key(toP), an.dom.bottom))
    requires fin.rank(after.states[an.key(toP)]) >= fin.rank(StateOr(before, an.key(toP), an.dom.bottom))
    requires fresh_ && Registered(before, an.hist, toP) ==>
      fin.rank(after.states[an.key(toP)]) > fin.rank(StateOr(before, an.key(toP), an.dom.bottom))
    ensures WithinUniverse(after, an.hist, fin)
    ensures TotalRoom(an, fin, after, fin.universe) <= TotalRoom(an, fin, before, fin.universe)
    ensures fresh_ ==> TotalRoom(an, fin, after, fin.universe) < TotalRoom(an, fin, before, fin.universe)
  {
    forall h | h in fin.universe
      ensures Room(an, fin, after, h) <= Room(an, fin, before, h)
    {
      if an.key(h) != an.key(toP) {
        assert StateOr(after, an.key(h), an.dom.bottom) == StateOr(before, an.key(h), an.dom.bottom);
      }
    }
    TotalRoomShrinks(an, fin, before, after, fin.universe, toP);
  }

  /** An edge never gains room, and one that queues its target uses some up. */
  lemma EdgeUsesRoom<H(!new), K(!new), S(!new), C(!new)>(
    an: Analysis<H, K, S, C>, fin: Finiteness<H, S>, st: Store<H, K, S>, p: H, to: nat, work: set<H>, toP: H)
    requires Lawful(an) && Populated(an, st) && Anchored(an, st) && Registered(st, an.hist, p)
    requires to in Successors(an.program, an.hist.location(p))
    requires FiniteAnalysis(an, fin) && WithinUniverse(st, an.hist, fin)
    requires an.hist.step(p, to, TracesAt(st, to)) in {New(toP), Merged(toP)} && an.hist.location(toP) == to
    ensures
      var dest := StateOr(st, an.key(toP), an.dom.bottom);
      var r := VisitedEdge(an.hist, an.key, an.dom, st, p, to, work);
      && toP in fin.universe
      && fin.rank(r.store.states[an.key(toP)]) >= fin.rank(dest)
      && (r.newData ==> !Registered(st, an.hist, toP) || fin.rank(r.store.states[an.key(toP)]) > fin.rank(dest))
  {
    assert AllAt(an.hist, TracesAt(st, to), to);
    assert StepStaysFinite(an.hist, fin, p, to, TracesAt(st, to));
    assert LawfulStep(an.hist, p, to, TracesAt(st, to));
    assert toP in TracesAt(st, to) ==> Registered(st, an.hist, toP);
    PropertyOfStored(an, st, toP);
    var src := an.dom.transform(an.hist.location(p), to, st.states[an.key(p)]);
    assert an.sem.property(to, src);
    assert RankGrows(an.dom, fin.rank, StateOr(st, an.key(toP), an.dom.bottom), src);
  }

  lemma EdgeProgress<H(!new), K(!new), S(!new), C(!new)>(
    an: Analysis<H, K, S, C>, fin: Finiteness<H, S>, st: Store<H, K, S>, p: H, to: nat, work: set<H>, toP: H)
    requires Lawful(an) && Populated(an, st) && Anchored(an, st) && Registered(st, an.hist, p)
    requires to in Successors(an.program, an.hist.location(p))
    requires FiniteAnalysis(an, fin) && WithinUniverse(st, an.hist, fin)
    requires an.hist.step(p, to, TracesAt(st, to)) in {New(toP), Merged(toP)} && an.hist.location(toP) == to
    requires
      var r := VisitedEdge(an.hist, an.key, an.dom, st, p, to, work);
      EdgeDone(an, st, r.store, work, r.work, toP)
    ensures
      var r := VisitedEdge(an.hist, an.key, an.dom, st, p, to, work);
      && WithinUniverse(r.store, an.hist, fin)
      && TotalRoom(an, fin, r.store, fin.universe) <= TotalRoom(an, fin, st, fin.universe)
      && (r.newData ==> TotalRoom(an, fin, r.store, fin.universe) < TotalRoom(an, fin, st, fin.universe))
  {
    var r := VisitedEdge(an.hist, an.key, an.dom, st, p, to, work);
    EdgeUsesRoom(an, fin, st, p, to, work, toP);
    PropertyOfStored(an, st, toP);
    EdgeKeepsStore(an, st, r.store, work, r.work, toP);
    RoomOfTarget(an, fin, st, r.store, work, r.work, toP, r.newData);
  }

  /** No room was gained, and new data used some up. */
  ghost predicate RoomUsed<H(!new), K(!new), S(!new), C(!new)>(
    an: Analysis<H, K, S, C>, fin: Finiteness<H, S>, room: nat, r: EdgeResult<H, K, S>)
  {
    && WithinUniverse(r.store, an.hist, fin)
    && TotalRoom(an, fin, r.store, fin.universe) <= room
    && (r.newData ==> TotalRoom(an, fin, r.store, fin.universe) < room)
  }

  lemma NextEdgeUsesRoom<H(!new), K(!new), S(!new), C(!new)>(
    an: Analysis<H, K, S, C>, fin: Finiteness<H, S>, p: H, work: set<H>, r: EdgeResult<H, K, S>, i: nat, room: nat)
    requires Lawful(an) && PartlyVisited(an, p, work, r, i)
    requires i < |Successors(an.program, an.hist.location(p))|
    requires FiniteAnalysis(an, fin) && RoomUsed(an, fin, room, r)
    ensures RoomUsed(
      an, fin, room, NextEdge(an.hist, an.key, an.dom, r, p, Successors(an.program, an.hist.location(p))[i]))
  {
    var to := Successors(an.program, an.hist.location(p))[i];
    var toP := VisitedEdgeIsDone(an, r.store, p, to, r.work);
    EdgeProgress(an, fin, r.store, p, to, r.work, toP);
  }

  /** A visit that queues anything uses up room. */
  lemma VisitUsesRoom<H(!new), K(!new), S(!new), C(!new)>(
    an: Analysis<H, K, S, C>, fin: Finiteness<H, S>, st: Store<H, K, S>, work: set<H>, p: H)
    requires Lawful(an) && EngineInvariant(an, st, work, {}) && p in work
    requires FiniteAnalysis(an, fin) && WithinUniverse(st, an.hist, fin)
    ensures RoomUsed(an, fin, TotalRoom(an, fin, st, fin.universe), Visited(an, st, work, p))
  {
    var room := TotalRoom(an, fin, st, fin.universe);
    forall r: EdgeResult<H, K, S>, i: nat | PartlyVisited(an, p, work - {p}, r, i)
      && i < |Successors(an.program, an.hist.location(p))| && RoomUsed(an, fin, room, r)
      ensures RoomUsed(
        an, fin, room, NextEdge(an.hist, an.key, an.dom, r, p, Successors(an.program, an.hist.location(p))[i]))
    {
      NextEdgeUsesRoom(an, fin, p, work - {p}, r, i, room);
    }
    VisitKeeps(an, st, work, p, r => RoomUsed(an, fin, room, r));
  }

  ghost function FiniteTermination<H(!new), K(!new), S(!new), C(!new)>(
    an: Analysis<H, K, S, C>, fin: Finiteness<H, S>): Termination<H, K, S>
  {
    Termination(
      (st: Store<H, K, S>, work: set<H>) => WithinUniverse(st, an.hist, fin),
      (st: Store<H, K, S>, work: set<H>) => Measure(TotalRoom(an, fin, st, fin.universe), |work|, 0, 0))
  }

  lemma FiniteVisitLowers<H(!new), K(!new), S(!new), C(!new)>(
    an: Analysis<H, K, S, C>, fin: Finiteness<H, S>, st: Store<H, K, S>, work: set<H>, p: H)
    requires Lawful(an) && FiniteAnalysis(an, fin) && WithinUniverse(st, an.hist, fin)
    requires EngineInvariant(an, st, work, {}) && p in work
    ensures VisitLowers(an, FiniteTermination(an, fin), st, work, p)
  {
    VisitUsesRoom(an, fin, st, work, p);
    VisitKeepsInvariant(an, st, work, p);
  }

  /** Where histories are finitely many, the loop ends. */
  lemma FiniteIsTerminating<H(!new), K(!new), S(!new), C(!new)>(an: Analysis<H, K, S, C>, fin: Finiteness<H, S>)
    requires Lawful(an) && FiniteAnalysis(an, fin)
    ensures Terminating(an, FiniteTermination(an, fin))
    ensures an.hist.epoch(0) in fin.universe ==>
      FiniteTermination(an, fin).holds(EntryStore(an), {an.hist.epoch(0)})
  {
    var t := FiniteTermination(an, fin);
    forall st, work, p | EngineInvariant(an, st, work, {}) && t.holds(st, work) && p in work
      ensures VisitLowers(an, t, st, work, p)
    {
      FiniteVisitLowers(an, fin, st, work, p);
    }
  }

  /** A non-empty set has an element with none below it. */
  lemma {:induction false} MinimalExists<H(!new)>(hist: HistoryKind<H>, work: set<H>)
    requires LawfulHistory(hist) && work != {}
    ensures exists p :: p in work && forall q :: q in work ==> !hist.less(q, p)
    decreases |work|
  {
    var x :| x in work;
    var rest := work - {x};
    if rest == {} {
      assert work == {x};
    } else {
      MinimalExists(hist, rest);
      var p :| p in rest && forall q :: q in rest ==> !hist.less(q, p);
      var least := if hist.less(x, p) then x else p;
      assert forall q :: q in work ==> q == x || q in rest;
      assert least in work && forall q :: q in work ==> !hist.less(q, least);
    }
  }

  // --- the engine --------------------------------------------------------------------------

  class Interpreter<H(==, !new), K(==, !new), S(!new), C(!new)> {
    const program: Program
    const hist: HistoryKind<H>
    const key: H -> K
    const dom: DomainKind<S>
    ghost const sem: Semantics<S, C>
    var traceMap: map<nat, set<H>>
    var stateMap: map<K, S>

    constructor (program: Program, hist: HistoryKind<H>, key: H -> K, dom: DomainKind<S>, ghost sem: Semantics<S, C>)
      ensures An() == Analysis(program, hist, key, dom, sem)
      ensures Stored() == Store(map[], map[])
    {
      this.program, this.hist, this.key, this.dom, this.sem := program, hist, key, dom, sem;
      traceMap, stateMap := map[], map[];
    }

    ghost function An(): Analysis<H, K, S, C> {
      Analysis(program, hist, key, dom, sem)
    }

    ghost function Stored(): Store<H, K, S>
      reads this
    {
      Store(traceMap, stateMap)
    }

    /** The state of a history, created as bottom when it is not there yet. */
    method GetState(p: H) returns (s: S)
      modifies this
      ensures traceMap == old(traceMap)[hist.location(p) := old(TracesAt(Stored(), hist.location(p))) + {p}]
      ensures stateMap == if key(p) in old(stateMap) then old(stateMap) else old(stateMap)[key(p) := dom.bottom]
      ensures key(p) in stateMap && s == stateMap[key(p)]
    {
      var l := hist.location(p);
      traceMap := traceMap[l := (if l in traceMap then traceMap[l] else {}) + {p}];
      if key(p) !in stateMap {
        stateMap := stateMap[key(p) := dom.bottom];
      }
      s := stateMap[key(p)];
    }

    /** Joins a state into the one stored for `to`. */
    method Merge(src: S, to: H) returns (changed: bool)
      modifies this
      ensures traceMap == old(traceMap)[hist.location(to) := old(TracesAt(Stored(), hist.location(to))) + {to}]
      ensures
        var dest := old(StateOr(Stored(), key(to), dom.bottom));
        stateMap == old(stateMap)[key(to) := dom.merge(dest, src).0] && changed == dom.merge(dest, src).1
    {
      var dest := GetState(to);
      var (joined, c) := dom.merge(dest, src);
      stateMap := stateMap[key(to) := joined];
      changed := c;
    }

    /** The start of the function, with the entry state of the domain. */
    method EntryState() returns (p: H)
      requires Stored() == Store(map[], map[])
      modifies this
      ensures p == hist.epoch(0) && Stored() == EntryStore(An())
    {
      p := hist.epoch(0);
      var _ := GetState(p);
      stateMap := stateMap[key(p) := dom.entry];
      assert {} + {p} == {p};
    }

    method VisitEdge(p: H, to: nat, work: set<H>) returns (work': set<H>, newData: bool)
      requires Lawful(An()) && Populated(An(), Stored()) && Registered(Stored(), hist, p)
      modifies this
      ensures EdgeResult(Stored(), work', newData) == VisitedEdge(hist, key, dom, old(Stored()), p, to, work)
    {
      ghost var before := Stored();
      var others := if to in traceMap then traceMap[to] else {};
      var next := hist.step(p, to, others);
      if next.Blocked? {
        return work, false;
      }
      var toP := next.history;
      var current := GetState(p);
      assert TracesAt(before, hist.location(p)) + {p} == TracesAt(before, hist.location(p));
      assert Stored() == before;
      var newValues := dom.transform(hist.location(p), to, current);
      assert AllAt(hist, others, to) && LawfulStep(hist, p, to, others);
      var changed := Merge(newValues, toP);
      if changed || (next.New? && !dom.isBottom(newValues)) {
        work', newData := work + {toP}, true;
      } else {
        work', newData := work, false;
      }
    }

    /** Computes all edges out of one history; a call goes to its return, an end goes nowhere. */
    method Visit(p: H, work: set<H>) returns (work': set<H>, newData: bool)
      requires Lawful(An()) && PartlyVisited(An(), p, work, EdgeResult(Stored(), work, false), 0)
      modifies this
      ensures EdgeResult(Stored(), work', newData) ==
        VisitedEdges(hist, key, dom, old(Stored()), p, Successors(program, hist.location(p)), work)
    {
      work', newData := work, false;
      ghost var before := Stored();
      var targets := Successors(program, hist.location(p));
      for i := 0 to |targets|
        invariant EdgeResult(Stored(), work', newData) ==
          VisitedEdges(hist, key, dom, before, p, targets[..i], work)
      {
        EdgesKeepInvariant(An(), before, p, work, i);
        OneEdgeMore(hist, key, dom, before, p, targets, work, i);
        var changed;
        work', changed := VisitEdge(p, targets[i], work');
        newData := newData || changed;
      }
      assert targets[..|targets|] == targets;
    }

    /** Takes a history that no other in the working set precedes. */
    method GetNext(work: set<H>) returns (p: H, rest: set<H>)
      requires LawfulHistory(hist) && work != {}
      ensures p in work && rest == work - {p}
      ensures forall q :: q in work ==> !hist.less(q, p)
    {
      MinimalExists(hist, work);
      p :| p in work && forall q :: q in work ==> !hist.less(q, p);
      rest := work - {p};
    }

    /** One turn of the loop: the next history is visited. */
    method Step(work: set<H>) returns (work': set<H>, newData: bool, ghost p: H)
      requires Lawful(An()) && work != {}
      requires EngineInvariant(An(), Stored(), work, {})
      modifies this
      ensures EngineInvariant(An(), Stored(), work', {})
      ensures p in work && forall q :: q in work ==> !hist.less(q, p)
      ensures EdgeResult(Stored(), work', newData) == old(Visited(An(), Stored(), work, p))
    {
      var next, rest := GetNext(work);
      p := next;
      VisitKeepsInvariant(An(), Stored(), work, p);
      work', newData := Visit(next, rest);
    }

    /** Visits histories until none is queued. */
    method Fixedpoint(start: H, ghost t: Termination<H, K, S>) returns (newData: bool)
      requires Lawful(An()) && Terminating(An(), t) && t.holds(Stored(), {start})
      requires EngineInvariant(An(), Stored(), {start}, {})
      modifies this
      ensures EngineInvariant(An(), Stored(), {}, {}) && t.holds(Stored(), {})
    {
      var work := {start};
      newData := false;
      while work != {}
        invariant EngineInvariant(An(), Stored(), work, {}) && t.holds(Stored(), work)
        decreases t.measure(Stored(), work).first, t.measure(Stored(), work).second,
                  t.measure(Stored(), work).third, t.measure(Stored(), work).fourth
      {
        ghost var st, todo := Stored(), work;
        ghost var p;
        var changed;
        work, changed, p := Step(work);
        assert VisitLowers(An(), t, st, todo, p);
        newData := newData || changed;
      }
    }

    /** Runs the analysis of one function; every run of the concrete program is then covered. */
    method Run(ghost t: Termination<H, K, S>)
      requires Stored() == Store(map[], map[])
      requires Lawful(An()) && Terminating(An(), t) && t.holds(EntryStore(An()), {hist.epoch(0)})
      modifies this
      ensures EngineInvariant(An(), Stored(), {}, {}) && t.holds(Stored(), {})
      ensures forall run: seq<(nat, C)>, i :: ConcreteRun(program, sem, run) && 0 <= i < |run| ==>
        Covered(An(), Stored(), run[i].0, run[i].1)
    {
      var p := EntryState();
      EntryInvariant(An());
      var _ := Fixedpoint(p, t);
      forall run: seq<(nat, C)>, i | ConcreteRun(program, sem, run) && 0 <= i < |run|
        ensures Covered(An(), Stored(), run[i].0, run[i].1)
      {
        QuiescentIsSound(An(), Stored(), run, i);
      }
    }
  }

  lemma EntryInvariant<H(!new), K(!new), S(!new), C(!new)>(an: Analysis<H, K, S, C>)
    requires Lawful(an)
    ensures EngineInvariant(an, EntryStore(an), {an.hist.epoch(0)}, {})
  {
    var st, p := EntryStore(an), an.hist.epoch(0);
    assert forall h :: Registered(st, an.hist, h) <==> h == p;
    assert Pending({p}, an.key, p);
    assert p in TracesAt(st, 0);
    assert PathBetween(FlowGraph(an.program), 0, 0, [0]);
  }
}
