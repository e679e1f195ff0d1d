/**
 Call graphs: which function calls which, for all functions or for those reachable from a root.
 */
module CallGraph {

  datatype CallSite = CallSite(location: nat, callee: string)

  /** The call sites in the bodies of the functions that have one. */
  type Functions = map<string, seq<CallSite>>

  type Edge = (string, string)

  // --- the call relation ---------------------------------------------------------------------

  predicate Calls(fs: Functions, f: string, g: string) {
    f in fs && exists i :: 0 <= i < |fs[f]| && fs[f][i].callee == g
  }

  ghost predicate CallPath(fs: Functions, p: seq<string>) {
    p != [] && forall i :: 0 < i < |p| ==> Calls(fs, p[i - 1], p[i])
  }

  ghost predicate Reachable(fs: Functions, root: string, g: string) {
    exists p :: CallPath(fs, p) && p[0] == root && p[|p| - 1] == g
  }

  lemma ReachableNext(fs: Functions, root: string, f: string, g: string)
    requires Reachable(fs, root, f) && Calls(fs, f, g)
    ensures Reachable(fs, root, g)
  {
    var p :| CallPath(fs, p) && p[0] == root && p[|p| - 1] == f;
    var q := p + [g];
    assert CallPath(fs, q) && q[0] == root && q[|q| - 1] == g;
  }

  /** A set with the root that is closed under calls has all reachable functions. */
  lemma {:induction false} ClosedHasReachable(fs: Functions, closed: set<string>, p: seq<string>)
    requires CallPath(fs, p) && p[0] in closed
    requires forall f, g :: f in closed && Calls(fs, f, g) ==> g in closed
    ensures p[|p| - 1] in closed
    decreases |p|
  {
    if |p| > 1 {
      var q := p[..|p| - 1];
      ClosedHasReachable(fs, closed, q);
      assert Calls(fs, p[|p| - 2], p[|p| - 1]);
    }
  }

  /** How many call sites lead from `f` to `g`. */
  function Sites(body: seq<CallSite>, g: string): nat {
    if body == [] then 0
    else Sites(body[..|body| - 1], g) + if body[|body| - 1].callee == g then 1 else 0
  }

  function SitesIn(fs: Functions, f: string, g: string): nat {
    if f in fs then Sites(fs[f], g) else 0
  }

  lemma {:induction false} SitesCount(body: seq<CallSite>, g: string)
    ensures Sites(body, g) > 0 <==> exists i :: 0 <= i < |body| && body[i].callee == g
  {
    if body != [] {
      var m := |body| - 1;
      SitesCount(body[..m], g);
      assert forall i :: 0 <= i < m ==> body[..m][i] == body[i];
    }
  }

  function Locations(body: seq<CallSite>, g: string): set<nat> {
    set i | 0 <= i < |body| && body[i].callee == g :: body[i].location
  }

  lemma LocationsGrow(body: seq<CallSite>, i: nat, g: string)
    requires i < |body|
    ensures Locations(body[..i + 1], g) ==
      Locations(body[..i], g) + if body[i].callee == g then {body[i].location} else {}
  {
    var a, b := body[..i + 1], body[..i];
    assert a[i] == body[i];
    assert forall k :: 0 <= k < i ==> a[k] == b[k];
  }

  // --- the graph ---------------------------------------------------------------------------------

  predicate HasEdges(edges: multiset<Edge>, f: string) {
    exists e :: e in edges && e.0 == f
  }

  ghost predicate Inverse(a: multiset<Edge>, b: multiset<Edge>) {
    forall f, g :: b[(g, f)] == a[(f, g)]
  }

  lemma InverseTwice(a: multiset<Edge>, b: multiset<Edge>, c: multiset<Edge>)
    requires Inverse(a, b) && Inverse(b, c)
    ensures c == a
  {
    forall e: Edge
      ensures c[e] == a[e]
    {
      assert b[(e.1, e.0)] == a[(e.0, e.1)];
    }
  }

  ghost predicate Within(edges: multiset<Edge>, nodes: set<string>) {
    forall e :: e in edges ==> e.0 in nodes && e.1 in nodes
  }

  function SitesOf(callsites: map<Edge, set<nat>>, e: Edge): set<nat> {
    if e in callsites then callsites[e] else {}
  }

  class Graph {
    const collectCallsites: bool
    var edges: multiset<Edge>
    var nodes: set<string>
    var callsites: map<Edge, set<nat>>

    ghost predicate Valid()
      reads this
    {
      Within(edges, nodes) && (collectCallsites ==> forall e :: e in edges ==> e in callsites)
    }

    constructor Empty(collect: bool)
      ensures Valid() && collectCallsites == collect
      ensures edges == multiset{} && nodes == {} && callsites == map[]
    {
      collectCallsites := collect;
      edges, nodes, callsites := multiset{}, {}, map[];
    }

    method AddEdge(caller: string, callee: string)
      modifies this`edges, this`nodes
      ensures edges == old(edges) + multiset{(caller, callee)}
      ensures nodes == old(nodes) + {caller, callee}
    {
      edges := edges + multiset{(caller, callee)};
      nodes := nodes + {caller};
      nodes := nodes + {callee};
    }

    ghost function State(): CallState
      reads this
    {
      CallState(edges, nodes, callsites)
    }

    method AddCall(caller: string, site: CallSite)
      modifies this
      ensures State() == AfterCall(collectCallsites, old(State()), caller, site)
    {
      AddEdge(caller, site.callee);
      if collectCallsites {
        var e := (caller, site.callee);
        callsites := callsites[e := SitesOf(callsites, e) + {site.location}];
      }
    }

    /** All calls in one body; the callees that have no edges yet are to be looked at. */
    method AddCalls(f: string, body: seq<CallSite>) returns (pending: seq<string>)
      modifies this
      ensures CallsAdded(collectCallsites, old(State()), State(), f, body)
      ensures pending == PendingOf(old(edges), f, body)
    {
      pending := [];
      CallsAddedStart(collectCallsites, State(), f, body);
      for i := 0 to |body|
        invariant CallsAdded(collectCallsites, old(State()), State(), f, body[..i])
        invariant pending == PendingOf(old(edges), f, body[..i])
      {
        assert body[..i + 1][..i] == body[..i];
        var g := body[i].callee;
        ghost var before := State();
        AddCall(f, body[i]);
        CallsAddedStep(collectCallsites, old(State()), before, State(), f, body, i);
        StillToDo(old(edges), edges, f, body, i);
        if !HasEdges(edges, g) {
          pending := pending + [g];
        }
      }
      assert body[..|body|] == body;
    }

    /** The graph of all functions. */
    constructor Complete(fs: Functions, collect: bool)
      ensures Valid() && collectCallsites == collect
      ensures forall e: Edge :: edges[e] == SitesIn(fs, e.0, e.1)
      ensures forall n :: n in nodes <==> n in fs || exists f :: Calls(fs, f, n)
      ensures SitesRecorded(fs, collect, State())
    {
      collectCallsites := collect;
      edges, nodes, callsites := multiset{}, {}, map[];
      new;
      var todo := fs.Keys;
      ghost var done := multiset{};
      CompleteStart(fs, collect);
      while todo != {}
        invariant CompleteSoFar(fs, collect, State(), todo, done)
        decreases |todo|
      {
        var f :| f in todo;
        ghost var before := State();
        nodes := nodes + {f};
        ghost var middle := State();
        var _ := AddCalls(f, fs[f]);
        CompleteStep(fs, collect, before, middle, State(), todo, done, f);
        done := done + multiset{f};
        todo := todo - {f};
      }
      CompleteDone(fs, collect, State(), done);
    }

    /** The graph of the functions reachable from a root. A function may be gone over several times. */
    constructor Rooted(fs: Functions, root: string, collect: bool)
      ensures Valid() && collectCallsites == collect
      ensures forall n :: n in nodes <==> Reachable(fs, root, n)
      ensures forall f, g :: (f, g) in edges <==> Reachable(fs, root, f) && Calls(fs, f, g)
      ensures EdgesPerRound(fs, edges, Rounds(fs, multiset{}, [root]))
      ensures AllInOnePlace(fs, root) ==>
        forall f, g :: edges[(f, g)] == if Reachable(fs, root, f) then SitesIn(fs, f, g) else 0
      ensures SitesRecorded(fs, collect, State())
    {
      collectCallsites := collect;
      edges, nodes, callsites := multiset{}, {}, map[];
      new;
      var pending := [root];
      ghost var rounds, all := multiset{}, Rounds(fs, multiset{}, [root]);
      RootedStart(fs, root, collect);
      while pending != []
        invariant RootedSoFar(fs, root, collect, State(), rounds, pending)
        invariant RoundsLeft(fs, edges, pending, rounds, all)
        decreases Fresh(fs, edges), WithEdges(edges, pending), |pending|
      {
        ghost var f := pending[|pending| - 1];
        pending := GoOver(fs, root, pending, rounds, all);
        rounds := rounds + multiset{f};
      }
      RootedDone(fs, root, collect, State(), rounds);
      assert rounds == all;
      forall f, g | AllInOnePlace(fs, root)
        ensures edges[(f, g)] == if Reachable(fs, root, f) then SitesIn(fs, f, g) else 0
      {
        OnePlaceMeansOneEdge(fs, root, edges, f, g);
      }
    }

    /** Adds the reverse of all given edges. */
    method AddReversed(todo: multiset<Edge>)
      requires Within(todo, nodes) && edges == multiset{}
      modifies this`edges, this`nodes
      ensures nodes == old(nodes) && Inverse(todo, edges) && Within(edges, nodes)
    {
      var rest := todo;
      InvertedStart(todo);
      while rest != multiset{}
        invariant nodes == old(nodes) && InvertedBut(todo, edges, rest)
        decreases |rest|
      {
        var e :| e in rest;
        InvertedStep(todo, edges, rest, e, nodes);
        AddEdge(e.1, e.0);
        assert nodes == old(nodes);
        rest := rest - multiset{e};
      }
      InvertedDone(todo, edges, nodes);
    }

    /** Goes over the function pushed last. */
    method GoOver(
      fs: Functions, root: string, pending: seq<string>, ghost rounds: multiset<string>, ghost all: multiset<string>)
      returns (pending': seq<string>)
      requires pending != [] && RootedSoFar(fs, root, collectCallsites, State(), rounds, pending)
      requires RoundsLeft(fs, edges, pending, rounds, all)
      modifies this
      ensures
        var rounds' := rounds + multiset{pending[|pending| - 1]};
        && RootedSoFar(fs, root, collectCallsites, State(), rounds', pending')
        && RoundsLeft(fs, edges, pending', rounds', all)
      ensures Shrunk(fs, old(edges), edges, pending, pending')
    {
      var f := pending[|pending| - 1];
      var rest := pending[..|pending| - 1];
      ghost var before := State();
      assert pending == rest + [f];
      nodes := nodes + {f};
      var more := [];
      if f in fs {
        ghost var middle := State();
        more := AddCalls(f, fs[f]);
        RoundsStep(fs, before.edges, State().edges, rest, more, f, rounds, all);
        BodyStep(fs, root, collectCallsites, before, middle, State(), rounds, rest, more, f);
        TerminatesStep(fs, before.edges, State().edges, rest, more, f);
      } else {
        RoundsStep(fs, before.edges, State().edges, rest, more, f, rounds, all);
        NoBodyStep(fs, root, collectCallsites, before, State(), rounds, rest, f);
        WithEdgesSplit(edges, rest, [f]);
        assert rest + more == rest;
      }
      pending' := rest + more;
    }

    /** All edges turned round, without call sites. */
    method GetInverted() returns (r: Graph)
      requires Valid()
      ensures fresh(r) && r.Valid()
      ensures r.nodes == nodes && Inverse(edges, r.edges)
    {
      r := new Graph.Empty(false);
      r.nodes := nodes;
      r.AddReversed(edges);
    }

    /** The graph over node numbers, without parallel edges. */
    method GetDirectedGraph() returns (d: DirectedGraph)
      requires Valid()
      ensures d.Valid() && d.byName.Keys == nodes
      ensures forall f, g :: d.HasEdge(f, g) <==> (f, g) in edges
      ensures forall f, g :: (f, g) in edges ==>
        d.SitesBetween(f, g) == if collectCallsites then SitesOf(callsites, (f, g)) else {}
    {
      d := NumberNodes();
      var todo := edges;
      while todo != multiset{}
        invariant todo <= edges && d.Valid() && d.byName.Keys == nodes
        invariant Condensed(edges, callsites, collectCallsites, d, todo)
        decreases |todo|
      {
        var e :| e in todo;
        assert e in edges;
        ghost var before := d;
        d := AddDirected(d, e);
        CondensedStep(edges, callsites, collectCallsites, before, d, todo, e);
        todo := todo - multiset{e};
      }
    }

    /** A number for each node, called from elsewhere or not. */
    method NumberNodes() returns (d: DirectedGraph)
      ensures d.Valid() && d.byName.Keys == nodes && d.edges == map[]
    {
      d := DirectedGraph([], map[], map[]);
      var names := nodes;
      while names != {}
        invariant names <= nodes && d.Valid() && d.byName.Keys == nodes - names && d.edges == map[]
        decreases |names|
      {
        var f :| f in names;
        var i;
        d, i := d.Index(f);
        names := names - {f};
      }
    }

    /** One more edge, unless there is one already. */
    method AddDirected(d: DirectedGraph, e: Edge) returns (r: DirectedGraph)
      requires Valid() && e in edges && d.Valid() && d.byName.Keys == nodes
      ensures r.Valid() && r.byName == d.byName && r.names == d.names
      ensures r.edges ==
                var k := (d.byName[e.0], d.byName[e.1]);
                if k in d.edges then d.edges
                else d.edges[k := if collectCallsites then SitesOf(callsites, e) else {}]
    {
      var a, b;
      r, a := d.Index(e.0);
      r, b := r.Index(e.1);
      if (a, b) !in r.edges {
        r := r.(edges := r.edges[(a, b) := if collectCallsites then callsites[e] else {}]);
      }
    }
  }

  /** A graph over node numbers that knows the functions by name, with call sites on its edges. */
  datatype DirectedGraph = DirectedGraph(
    names: seq<string>, byName: map<string, nat>, edges: map<(nat, nat), set<nat>>)
  {
    /** Names and numbers correspond one to one, and edges are between nodes. */
    ghost predicate Valid() {
      && (forall i :: 0 <= i < |names| ==> names[i] in byName && byName[names[i]] == i)
      && (forall f :: f in byName ==> byName[f] < |names| && names[byName[f]] == f)
      && (forall e :: e in edges ==> e.0 < |names| && e.1 < |names|)
    }

    predicate HasEdge(f: string, g: string) {
      f in byName && g in byName && (byName[f], byName[g]) in edges
    }

    function SitesBetween(f: string, g: string): set<nat> {
      if HasEdge(f, g) then edges[(byName[f], byName[g])] else {}
    }

    /** The number of a function, given to it when it has none yet. */
    method Index(f: string) returns (d: DirectedGraph, i: nat)
      requires Valid()
      ensures d.Valid() && f in d.byName && d.byName[f] == i
      ensures d == if f in byName then this
                   else DirectedGraph(names + [f], byName[f := |names|], edges)
    {
      if f in byName {
        d, i := this, byName[f];
      } else {
        i := |names|;
        d := DirectedGraph(names + [f], byName[f := i], edges);
      }
    }
  }

  // --- the constructions -------------------------------------------------------------------------

  /** Each function gone over so many times: its edges are there so many times. */
  ghost predicate EdgesPerRound(fs: Functions, edges: multiset<Edge>, rounds: multiset<string>) {
    forall e: Edge :: edges[e] == rounds[e.0] * SitesIn(fs, e.0, e.1)
  }

  /** Exactly the edges have call sites recorded, and all of theirs; if they are collected at all. */
  ghost predicate SitesRecorded(fs: Functions, collect: bool, s: CallState) {
    if collect then
      forall e: Edge ::
        (e in s.callsites <==> e in s.edges)
        && (e in s.edges ==> e.0 in fs && SitesOf(s.callsites, e) == Locations(fs[e.0], e.1))
    else s.callsites == map[]
  }

  ghost predicate Processed(fs: Functions, collect: bool, s: CallState, rounds: multiset<string>) {
    && EdgesPerRound(fs, s.edges, rounds)
    && SitesRecorded(fs, collect, s)
    && (forall f :: f in rounds ==> f in s.nodes)
    && (forall f, g :: f in rounds && Calls(fs, f, g) ==> g in s.nodes)
  }

  lemma CalleesOf(fs: Functions, f: string)
    requires f in fs
    ensures forall g :: Calls(fs, f, g) <==> Sites(fs[f], g) > 0
  {
    forall g
      ensures Calls(fs, f, g) <==> Sites(fs[f], g) > 0
    {
      SitesCount(fs[f], g);
    }
  }

  lemma ProcessedStep(
    fs: Functions, collect: bool, before: CallState, after: CallState, rounds: multiset<string>, f: string)
    requires Processed(fs, collect, before, rounds) && f in fs && f in before.nodes
    requires CallsAdded(collect, before, after, f, fs[f])
    ensures Processed(fs, collect, after, rounds + multiset{f})
  {
    CalleesOf(fs, f);
    var rounds' := rounds + multiset{f};
    forall e: Edge
      ensures after.edges[e] == rounds'[e.0] * SitesIn(fs, e.0, e.1)
    {
      assert before.edges[e] == rounds[e.0] * SitesIn(fs, e.0, e.1);
      if e.0 == f {
        OneMore(rounds[f], SitesIn(fs, f, e.1));
      }
    }
    if collect {
      SitesRecordedStep(fs, before, after, f);
    }
  }

  lemma OneMore(n: nat, k: nat)
    ensures n * k + k == (n + 1) * k
  {
  }

  lemma SitesRecordedStep(fs: Functions, before: CallState, after: CallState, f: string)
    requires SitesRecorded(fs, true, before) && f in fs
    requires EdgesAdded(before.edges, after.edges, f, fs[f])
    requires SitesAdded(before.callsites, after.callsites, f, fs[f])
    ensures SitesRecorded(fs, true, after)
  {
    forall e: Edge
      ensures e in after.callsites <==> e in after.edges
      ensures e in after.edges ==> e.0 in fs && SitesOf(after.callsites, e) == Locations(fs[e.0], e.1)
    {
      assert after.edges[e] == before.edges[e] + if e.0 == f then Sites(fs[f], e.1) else 0;
      if e !in before.edges {
        assert SitesOf(before.callsites, e) == {};
        assert {} + Locations(fs[f], e.1) == Locations(fs[f], e.1);
      } else if e.0 == f {
        var sites := Locations(fs[f], e.1);
        assert SitesOf(before.callsites, e) == sites && sites + sites == sites;
      }
    }
  }

  /** All functions but those still to do are done once, and nothing else is in the graph. */
  ghost predicate CompleteSoFar(
    fs: Functions, collect: bool, s: CallState, todo: set<string>, done: multiset<string>)
  {
    && todo <= fs.Keys
    && (forall f :: done[f] == if f in fs && f !in todo then 1 else 0)
    && Processed(fs, collect, s, done)
    && (forall n :: n in s.nodes ==> n in fs || exists f :: Calls(fs, f, n))
  }

  lemma CompleteStart(fs: Functions, collect: bool)
    ensures CompleteSoFar(fs, collect, CallState(multiset{}, {}, map[]), fs.Keys, multiset{})
  {
  }

  lemma CompleteStep(
    fs: Functions, collect: bool, before: CallState, middle: CallState, after: CallState, todo: set<string>,
    done: multiset<string>, f: string)
    requires CompleteSoFar(fs, collect, before, todo, done) && f in todo
    requires middle == before.(nodes := before.nodes + {f}) && CallsAdded(collect, middle, after, f, fs[f])
    ensures CompleteSoFar(fs, collect, after, todo - {f}, done + multiset{f})
  {
    ProcessedStep(fs, collect, middle, after, done, f);
    CalleesOf(fs, f);
  }

  lemma CompleteDone(fs: Functions, collect: bool, s: CallState, done: multiset<string>)
    requires CompleteSoFar(fs, collect, s, {}, done)
    ensures forall e: Edge :: s.edges[e] == SitesIn(fs, e.0, e.1)
    ensures forall n :: n in s.nodes <==> n in fs || exists f :: Calls(fs, f, n)
    ensures Within(s.edges, s.nodes) && (collect ==> forall e :: e in s.edges ==> e in s.callsites)
  {
    forall e: Edge
      ensures s.edges[e] == SitesIn(fs, e.0, e.1)
      ensures e in s.edges ==> e.0 in s.nodes && e.1 in s.nodes
    {
      assert s.edges[e] == done[e.0] * SitesIn(fs, e.0, e.1);
      if e in s.edges {
        CalleesOf(fs, e.0);
        assert e.0 in done && Calls(fs, e.0, e.1);
      }
    }
    forall f, n | Calls(fs, f, n)
      ensures n in s.nodes
    {
      assert f in done;
    }
  }

  ghost predicate RootedSoFar(
    fs: Functions, root: string, collect: bool, s: CallState, rounds: multiset<string>, pending: seq<string>)
  {
    Processed(fs, collect, s, rounds) && Explored(fs, root, s.nodes, rounds, pending)
  }

  lemma RootedStart(fs: Functions, root: string, collect: bool)
    ensures RootedSoFar(fs, root, collect, CallState(multiset{}, {}, map[]), multiset{}, [root])
  {
    assert CallPath(fs, [root]) && Reachable(fs, root, root);
  }

  /** All nodes are reachable, and all are done or wait to be. */
  ghost predicate Explored(
    fs: Functions, root: string, nodes: set<string>, rounds: multiset<string>, pending: seq<string>)
  {
    && (root in nodes || root in pending)
    && (forall n :: n in nodes || n in pending ==> Reachable(fs, root, n))
    && (forall n :: n in nodes ==> n in rounds || n in pending)
  }

  lemma ExploredStep(
    fs: Functions, root: string, collect: bool, before: CallState, after: CallState, rounds: multiset<string>,
    rest: seq<string>, more: seq<string>, f: string)
    requires f in fs && CallsAdded(collect, before, after, f, fs[f]) && f in before.nodes
    requires PendingAfter(before.edges, after.edges, f, fs[f], more)
    requires EdgesPerRound(fs, before.edges, rounds)
    requires Explored(fs, root, before.nodes, rounds, rest + [f])
    ensures Explored(fs, root, after.nodes, rounds + multiset{f}, rest + more)
  {
    CalleesOf(fs, f);
    assert f in rest + [f] && Reachable(fs, root, f);
    forall g | Sites(fs[f], g) > 0
      ensures Reachable(fs, root, g)
      ensures g in rounds + multiset{f} || g in rest + more
    {
      ReachableNext(fs, root, f, g);
      if HasEdges(before.edges, g) {
        var e :| e in before.edges && e.0 == g;
        assert before.edges[e] == rounds[e.0] * SitesIn(fs, e.0, e.1);
      }
    }
    assert forall n :: n in rest ==> n in rest + [f];
  }

  lemma BodyStep(
    fs: Functions, root: string, collect: bool, before: CallState, middle: CallState, after: CallState,
    rounds: multiset<string>, rest: seq<string>, more: seq<string>, f: string)
    requires RootedSoFar(fs, root, collect, before, rounds, rest + [f]) && f in fs
    requires middle == before.(nodes := before.nodes + {f}) && CallsAdded(collect, middle, after, f, fs[f])
    requires PendingAfter(before.edges, after.edges, f, fs[f], more)
    ensures RootedSoFar(fs, root, collect, after, rounds + multiset{f}, rest + more)
  {
    assert f in rest + [f];
    ProcessedStep(fs, collect, middle, after, rounds, f);
    ExploredStep(fs, root, collect, middle, after, rounds, rest, more, f);
  }

  lemma NoBodyNoEdges(fs: Functions, edges: multiset<Edge>, rounds: multiset<string>, f: string)
    requires EdgesPerRound(fs, edges, rounds) && f !in fs
    ensures EdgesPerRound(fs, edges, rounds + multiset{f})
  {
    var rounds' := rounds + multiset{f};
    forall e: Edge
      ensures edges[e] == rounds'[e.0] * SitesIn(fs, e.0, e.1)
    {
      assert edges[e] == rounds[e.0] * SitesIn(fs, e.0, e.1);
      if e.0 != f {
        assert rounds'[e.0] == rounds[e.0];
      }
    }
  }

  /** A function without a body only becomes a node. */
  lemma NoBodyStep(
    fs: Functions, root: string, collect: bool, before: CallState, after: CallState, rounds: multiset<string>,
    rest: seq<string>, f: string)
    requires RootedSoFar(fs, root, collect, before, rounds, rest + [f]) && f !in fs
    requires after == before.(nodes := before.nodes + {f})
    ensures RootedSoFar(fs, root, collect, after, rounds + multiset{f}, rest)
  {
    NoBodyNoEdges(fs, before.edges, rounds, f);
    assert f in rest + [f];
    assert forall n :: n in rest ==> n in rest + [f];
  }

  lemma EdgesOfRounds(fs: Functions, edges: multiset<Edge>, rounds: multiset<string>, f: string, g: string)
    requires EdgesPerRound(fs, edges, rounds)
    ensures (f, g) in edges <==> f in rounds && Calls(fs, f, g)
  {
    var e: Edge := (f, g);
    assert edges[e] == rounds[e.0] * SitesIn(fs, e.0, e.1);
    if f in fs {
      CalleesOf(fs, f);
    }
  }

  /** Once nothing waits, the nodes are the reachable functions and the edges their calls. */
  lemma RootedDone(fs: Functions, root: string, collect: bool, s: CallState, rounds: multiset<string>)
    requires RootedSoFar(fs, root, collect, s, rounds, [])
    ensures forall n :: n in s.nodes <==> Reachable(fs, root, n)
    ensures forall f, g :: (f, g) in s.edges <==> Reachable(fs, root, f) && Calls(fs, f, g)
    ensures EdgesPerRound(fs, s.edges, rounds)
    ensures SitesRecorded(fs, collect, s)
    ensures Within(s.edges, s.nodes) && (collect ==> forall e :: e in s.edges ==> e in s.callsites)
  {
    assert forall n :: n in s.nodes <==> n in rounds;
    forall n | Reachable(fs, root, n)
      ensures n in s.nodes
    {
      var p :| CallPath(fs, p) && p[0] == root && p[|p| - 1] == n;
      ClosedHasReachable(fs, s.nodes, p);
    }
    forall f, g
      ensures (f, g) in s.edges <==> f in rounds && Calls(fs, f, g)
    {
      EdgesOfRounds(fs, s.edges, rounds, f, g);
    }
    forall e | e in s.edges
      ensures e.0 in s.nodes && e.1 in s.nodes
    {
      assert (e.0, e.1) in s.edges;
    }
  }

  // --- inverting and condensing ------------------------------------------------------------------

  /** All edges but those still to do are turned round. */
  ghost predicate InvertedBut(edges: multiset<Edge>, inverted: multiset<Edge>, todo: multiset<Edge>) {
    forall f, g :: inverted[(g, f)] + todo[(f, g)] == edges[(f, g)]
  }

  lemma InvertedStart(edges: multiset<Edge>)
    ensures InvertedBut(edges, multiset{}, edges)
  {
  }

  lemma InvertedStep(
    edges: multiset<Edge>, inverted: multiset<Edge>, todo: multiset<Edge>, e: Edge, nodes: set<string>)
    requires InvertedBut(edges, inverted, todo) && e in todo && Within(edges, nodes)
    ensures e.0 in nodes && e.1 in nodes && |todo - multiset{e}| < |todo|
    ensures InvertedBut(edges, inverted + multiset{(e.1, e.0)}, todo - multiset{e})
  {
    forall f, g
      ensures (inverted + multiset{(e.1, e.0)})[(g, f)] + (todo - multiset{e})[(f, g)] == edges[(f, g)]
    {
      assert inverted[(g, f)] + todo[(f, g)] == edges[(f, g)];
      assert (f, g) == e <==> (g, f) == (e.1, e.0);
    }
    assert inverted[(e.1, e.0)] + todo[(e.0, e.1)] == edges[(e.0, e.1)];
    assert e in edges;
  }

  lemma InvertedDone(edges: multiset<Edge>, inverted: multiset<Edge>, nodes: set<string>)
    requires InvertedBut(edges, inverted, multiset{}) && Within(edges, nodes)
    ensures Inverse(edges, inverted) && Within(inverted, nodes)
  {
    forall f, g
      ensures inverted[(g, f)] == edges[(f, g)]
    {
      assert inverted[(g, f)] + multiset{}[(f, g)] == edges[(f, g)];
    }
    forall e | e in inverted
      ensures e.0 in nodes && e.1 in nodes
    {
      assert inverted[(e.0, e.1)] == edges[(e.1, e.0)];
      assert (e.1, e.0) in edges;
    }
  }

  /** All edges but those still to do are in the directed graph, and no others. */
  ghost predicate Condensed(
    edges: multiset<Edge>, callsites: map<Edge, set<nat>>, collect: bool, d: DirectedGraph, todo: multiset<Edge>)
  {
    && (forall f, g :: d.HasEdge(f, g) ==> (f, g) in edges)
    && (forall f, g :: (f, g) in edges && (f, g) !in todo ==> d.HasEdge(f, g))
    && (forall f, g :: d.HasEdge(f, g) ==>
          d.SitesBetween(f, g) == if collect then SitesOf(callsites, (f, g)) else {})
  }

  lemma CondensedStep(
    edges: multiset<Edge>, callsites: map<Edge, set<nat>>, collect: bool, before: DirectedGraph,
    after: DirectedGraph, todo: multiset<Edge>, e: Edge)
    requires before.Valid() && Condensed(edges, callsites, collect, before, todo) && e in todo && e in edges
    requires e.0 in before.byName && e.1 in before.byName
    requires after.byName == before.byName
    requires after.edges ==
      var k := (before.byName[e.0], before.byName[e.1]);
      if k in before.edges then before.edges
      else before.edges[k := if collect then SitesOf(callsites, e) else {}]
    ensures Condensed(edges, callsites, collect, after, todo - multiset{e})
  {
    forall f, g
      ensures after.HasEdge(f, g) <==> before.HasEdge(f, g) || (f, g) == e
      ensures after.HasEdge(f, g) ==>
        after.SitesBetween(f, g) ==
          if before.HasEdge(f, g) then before.SitesBetween(f, g)
          else if collect then SitesOf(callsites, (f, g)) else {}
    {
    }
  }

  // --- termination ---------------------------------------------------------------------------------

  /** The functions that make calls but have no edges yet. */
  function Fresh(fs: Functions, edges: multiset<Edge>): set<string> {
    set f | f in fs && fs[f] != [] && !HasEdges(edges, f)
  }

  /** How many of these functions have edges. */
  function WithEdges(edges: multiset<Edge>, fs: seq<string>): nat {
    if fs == [] then 0
    else WithEdges(edges, fs[..|fs| - 1]) + if HasEdges(edges, fs[|fs| - 1]) then 1 else 0
  }

  /** The measure of the pending functions got smaller. */
  ghost predicate Shrunk(
    fs: Functions, before: multiset<Edge>, after: multiset<Edge>, pending: seq<string>, pending': seq<string>)
  {
    || Fresh(fs, after) < Fresh(fs, before)
    || (Fresh(fs, after) == Fresh(fs, before) && WithEdges(after, pending') < WithEdges(before, pending))
    || (Fresh(fs, after) == Fresh(fs, before) && WithEdges(after, pending') <= WithEdges(before, pending)
        && |pending'| < |pending|)
  }

  lemma {:induction false} WithEdgesSplit(edges: multiset<Edge>, a: seq<string>, b: seq<string>)
    ensures WithEdges(edges, a + b) == WithEdges(edges, a) + WithEdges(edges, b)
  {
    if b == [] {
      assert a + b == a;
    } else {
      var m := |b| - 1;
      WithEdgesSplit(edges, a, b[..m]);
      assert (a + b)[..|a| + m] == a + b[..m];
    }
  }

  lemma {:induction false} SameWithEdges(before: multiset<Edge>, after: multiset<Edge>, fs: seq<string>)
    requires forall g :: HasEdges(after, g) <==> HasEdges(before, g)
    ensures WithEdges(after, fs) == WithEdges(before, fs)
  {
    if fs != [] {
      SameWithEdges(before, after, fs[..|fs| - 1]);
    }
  }

  lemma {:induction false} NoneWithEdges(edges: multiset<Edge>, fs: seq<string>)
    requires forall g :: g in fs ==> !HasEdges(edges, g)
    ensures WithEdges(edges, fs) == 0
  {
    if fs != [] {
      assert fs[|fs| - 1] in fs;
      NoneWithEdges(edges, fs[..|fs| - 1]);
    }
  }

  /**
   Going over a function again repeats its edges but pushes nothing that has edges; a function without
   calls pushes nothing.
   */
  lemma TerminatesStep(
    fs: Functions, before: multiset<Edge>, after: multiset<Edge>, rest: seq<string>, more: seq<string>, f: string)
    requires f in fs && EdgesAdded(before, after, f, fs[f]) && PendingAfter(before, after, f, fs[f], more)
    ensures Shrunk(fs, before, after, rest + [f], rest + more)
  {
    forall g
      ensures g != f ==> (HasEdges(after, g) <==> HasEdges(before, g))
    {
      SameCallers(before, after, f, g);
    }
    if fs[f] == [] {
      assert after == before by {
        assert forall e: Edge :: after[e] == before[e];
      }
      assert rest + more == rest;
      WithEdgesSplit(before, rest, [f]);
    } else {
      var site := fs[f][|fs[f]| - 1];
      assert Sites(fs[f], site.callee) > 0;
      assert after[(f, site.callee)] > 0 && (f, site.callee) in after;
      assert HasEdges(after, f);
      if HasEdges(before, f) {
        WithEdgesSplit(before, rest, [f]);
        WithEdgesSplit(after, rest, more);
        SameWithEdges(before, after, rest);
        NoneWithEdges(after, more);
      } else {
        assert f in Fresh(fs, before) && f !in Fresh(fs, after);
      }
    }
  }

  datatype CallState = CallState(edges: multiset<Edge>, nodes: set<string>, callsites: map<Edge, set<nat>>)

  function AfterCall(collect: bool, s: CallState, caller: string, site: CallSite): CallState {
    var e := (caller, site.callee);
    CallState(
      s.edges + multiset{e},
      s.nodes + {caller, site.callee},
      if collect then s.callsites[e := SitesOf(s.callsites, e) + {site.location}] else s.callsites)
  }

  /** The calls of a body of `f` came in, each with its own edge. */
  ghost predicate CallsAdded(collect: bool, before: CallState, after: CallState, f: string, body: seq<CallSite>) {
    && EdgesAdded(before.edges, after.edges, f, body)
    && (forall n :: n in after.nodes <==> n in before.nodes || (body != [] && n == f) || Sites(body, n) > 0)
    && if collect then SitesAdded(before.callsites, after.callsites, f, body) else after.callsites == before.callsites
  }

  ghost predicate EdgesAdded(before: multiset<Edge>, after: multiset<Edge>, f: string, body: seq<CallSite>) {
    forall e: Edge :: after[e] == before[e] + if e.0 == f then Sites(body, e.1) else 0
  }

  ghost predicate SitesAdded(before: map<Edge, set<nat>>, after: map<Edge, set<nat>>, f: string, body: seq<CallSite>) {
    && (forall e: Edge :: SitesOf(after, e) == SitesOf(before, e) + if e.0 == f then Locations(body, e.1) else {})
    && (forall e: Edge :: e in after <==> e in before || (e.0 == f && Sites(body, e.1) > 0))
  }

  lemma CallsAddedStart(collect: bool, s: CallState, f: string, body: seq<CallSite>)
    ensures CallsAdded(collect, s, s, f, body[..0])
  {
    forall e: Edge
      ensures SitesOf(s.callsites, e) == SitesOf(s.callsites, e) + Locations(body[..0], e.1)
    {
    }
  }

  lemma SitesGrow(body: seq<CallSite>, i: nat, g: string)
    requires i < |body|
    ensures Sites(body[..i + 1], g) == Sites(body[..i], g) + if body[i].callee == g then 1 else 0
  {
    assert body[..i + 1][..i] == body[..i];
  }

  lemma SitesAddedStep(
    start: map<Edge, set<nat>>, before: map<Edge, set<nat>>, after: map<Edge, set<nat>>, f: string,
    body: seq<CallSite>, i: nat)
    requires i < |body| && SitesAdded(start, before, f, body[..i])
    requires
      var e := (f, body[i].callee);
      after == before[e := SitesOf(before, e) + {body[i].location}]
    ensures SitesAdded(start, after, f, body[..i + 1])
  {
    forall e: Edge
      ensures SitesOf(after, e) == SitesOf(start, e) + if e.0 == f then Locations(body[..i + 1], e.1) else {}
      ensures e in after <==> e in start || (e.0 == f && Sites(body[..i + 1], e.1) > 0)
    {
      LocationsGrow(body, i, e.1);
      SitesGrow(body, i, e.1);
    }
  }

  lemma CallsAddedStep(
    collect: bool, start: CallState, before: CallState, after: CallState, f: string, body: seq<CallSite>, i: nat)
    requires i < |body| && CallsAdded(collect, start, before, f, body[..i])
    requires after == AfterCall(collect, before, f, body[i])
    ensures CallsAdded(collect, start, after, f, body[..i + 1])
  {
    forall g
      ensures Sites(body[..i + 1], g) == Sites(body[..i], g) + if body[i].callee == g then 1 else 0
    {
      SitesGrow(body, i, g);
    }
    if collect {
      SitesAddedStep(start.callsites, before.callsites, after.callsites, f, body, i);
    }
  }

  /** What is pending are callees without edges, and all of them but those that had some. */
  ghost predicate PendingAfter(
    before: multiset<Edge>, after: multiset<Edge>, f: string, body: seq<CallSite>, pending: seq<string>)
  {
    && |pending| <= |body|
    && (forall g :: g in pending ==> Sites(body, g) > 0 && g != f && !HasEdges(after, g))
    && (forall g :: Sites(body, g) > 0 ==> g == f || HasEdges(before, g) || g in pending)
  }

  /** The edges of a body. */
  function EdgesOf(f: string, body: seq<CallSite>): multiset<Edge> {
    if body == [] then multiset{}
    else EdgesOf(f, body[..|body| - 1]) + multiset{(f, body[|body| - 1].callee)}
  }

  /** The callees that are pushed: those of other functions that had no edges, once for each call. */
  function PendingOf(edges: multiset<Edge>, f: string, body: seq<CallSite>): seq<string> {
    if body == [] then []
    else
      var g := body[|body| - 1].callee;
      PendingOf(edges, f, body[..|body| - 1]) + if g != f && !HasEdges(edges, g) then [g] else []
  }

  lemma {:induction false} EdgesOfCount(f: string, body: seq<CallSite>, e: Edge)
    ensures EdgesOf(f, body)[e] == if e.0 == f then Sites(body, e.1) else 0
  {
    if body != [] {
      EdgesOfCount(f, body[..|body| - 1], e);
    }
  }

  lemma EdgesOfAdded(edges: multiset<Edge>, f: string, body: seq<CallSite>)
    ensures EdgesAdded(edges, edges + EdgesOf(f, body), f, body)
  {
    forall e: Edge
      ensures EdgesOf(f, body)[e] == if e.0 == f then Sites(body, e.1) else 0
    {
      EdgesOfCount(f, body, e);
    }
  }

  lemma EdgesAddedIs(before: multiset<Edge>, after: multiset<Edge>, f: string, body: seq<CallSite>)
    requires EdgesAdded(before, after, f, body)
    ensures after == before + EdgesOf(f, body)
  {
    EdgesOfAdded(before, f, body);
    forall e: Edge
      ensures after[e] == (before + EdgesOf(f, body))[e]
    {
    }
  }

  /** After the edge to the callee, it has edges only if it had, or is the caller itself. */
  lemma StillToDo(before: multiset<Edge>, after: multiset<Edge>, f: string, body: seq<CallSite>, i: nat)
    requires i < |body| && EdgesAdded(before, after, f, body[..i + 1])
    ensures HasEdges(after, body[i].callee) <==> body[i].callee == f || HasEdges(before, body[i].callee)
  {
    SameCallers(before, after, f, body[i].callee);
    SitesGrow(body, i, body[i].callee);
    var e: Edge := (f, body[i].callee);
    assert after[e] > 0 && e in after;
  }

  lemma {:induction false} PendingOfMembers(edges: multiset<Edge>, f: string, body: seq<CallSite>, g: string)
    ensures |PendingOf(edges, f, body)| <= |body|
    ensures g in PendingOf(edges, f, body) <==> Sites(body, g) > 0 && g != f && !HasEdges(edges, g)
  {
    if body != [] {
      PendingOfMembers(edges, f, body[..|body| - 1], g);
    }
  }

  lemma PendingOfIs(edges: multiset<Edge>, f: string, body: seq<CallSite>)
    ensures PendingAfter(edges, edges + EdgesOf(f, body), f, body, PendingOf(edges, f, body))
  {
    EdgesOfAdded(edges, f, body);
    PendingOfMembers(edges, f, body, f);
    forall g
      ensures g in PendingOf(edges, f, body) <==> Sites(body, g) > 0 && g != f && !HasEdges(edges, g)
      ensures g != f ==> (HasEdges(edges + EdgesOf(f, body), g) <==> HasEdges(edges, g))
    {
      PendingOfMembers(edges, f, body, g);
      SameCallers(edges, edges + EdgesOf(f, body), f, g);
    }
  }

  /** How often each function is gone over, from the edges there are and the functions pending. */
  function Rounds(fs: Functions, edges: multiset<Edge>, pending: seq<string>): multiset<string>
    decreases Fresh(fs, edges), WithEdges(edges, pending), |pending|
  {
    if pending == [] then multiset{}
    else
      var f, rest := pending[|pending| - 1], pending[..|pending| - 1];
      RoundTerminates(fs, edges, rest, f);
      assert pending == rest + [f];
      multiset{f} +
      if f in fs then Rounds(fs, edges + EdgesOf(f, fs[f]), rest + PendingOf(edges, f, fs[f]))
      else Rounds(fs, edges, rest)
  }

  lemma RoundTerminates(fs: Functions, edges: multiset<Edge>, rest: seq<string>, f: string)
    ensures f !in fs ==> WithEdges(edges, rest) <= WithEdges(edges, rest + [f])
    ensures f in fs ==>
      Shrunk(fs, edges, edges + EdgesOf(f, fs[f]), rest + [f], rest + PendingOf(edges, f, fs[f]))
  {
    WithEdgesSplit(edges, rest, [f]);
    if f in fs {
      EdgesOfAdded(edges, f, fs[f]);
      PendingOfIs(edges, f, fs[f]);
      TerminatesStep(fs, edges, edges + EdgesOf(f, fs[f]), rest, PendingOf(edges, f, fs[f]), f);
    }
  }

  /** There is one edge per call site exactly if each function that makes calls is gone over once. */
  lemma OneEdgePerSiteExactly(fs: Functions, edges: multiset<Edge>, rounds: multiset<string>)
    requires EdgesPerRound(fs, edges, rounds)
    ensures (forall e: Edge :: e.0 in rounds ==> edges[e] == SitesIn(fs, e.0, e.1)) <==>
      (forall f :: f in rounds && f in fs && fs[f] != [] ==> rounds[f] == 1)
  {
    if forall e: Edge :: e.0 in rounds ==> edges[e] == SitesIn(fs, e.0, e.1) {
      forall f | f in rounds && f in fs && fs[f] != []
        ensures rounds[f] == 1
      {
        var g := fs[f][|fs[f]| - 1].callee;
        var e: Edge := (f, g);
        assert Sites(fs[f], g) > 0;
        assert edges[e] == rounds[f] * SitesIn(fs, f, g);
        OnlyOnce(rounds[f], SitesIn(fs, f, g));
      }
    }
    if forall f :: f in rounds && f in fs && fs[f] != [] ==> rounds[f] == 1 {
      forall e: Edge | e.0 in rounds
        ensures edges[e] == SitesIn(fs, e.0, e.1)
      {
        assert edges[e] == rounds[e.0] * SitesIn(fs, e.0, e.1);
      }
    }
  }

  lemma OnlyOnce(n: nat, k: nat)
    requires k > 0 && n * k == k
    ensures n == 1
  {
    assert (n - 1) * k == 0;
  }

  /** The edges after going over `f`, and the functions pending then. */
  function NextEdges(fs: Functions, edges: multiset<Edge>, f: string): multiset<Edge> {
    if f in fs then edges + EdgesOf(f, fs[f]) else edges
  }

  function NextPending(fs: Functions, edges: multiset<Edge>, rest: seq<string>, f: string): seq<string> {
    if f in fs then rest + PendingOf(edges, f, fs[f]) else rest
  }

  lemma RoundOf(fs: Functions, edges: multiset<Edge>, rest: seq<string>, f: string)
    ensures Rounds(fs, edges, rest + [f]) ==
      multiset{f} + Rounds(fs, NextEdges(fs, edges, f), NextPending(fs, edges, rest, f))
  {
    assert (rest + [f])[..|rest|] == rest;
  }

  // --- how often functions are gone over, from the program text -----------------------------------------

  predicate MakesCalls(fs: Functions, g: string) {
    g in fs && fs[g] != []
  }

  lemma {:induction false} PendingOfCount(edges: multiset<Edge>, f: string, body: seq<CallSite>, g: string)
    ensures multiset(PendingOf(edges, f, body))[g] ==
      if g != f && !HasEdges(edges, g) then Sites(body, g) else 0
  {
    if body != [] {
      PendingOfCount(edges, f, body[..|body| - 1], g);
    }
  }

  lemma NextPendingCount(fs: Functions, edges: multiset<Edge>, rest: seq<string>, f: string, g: string)
    ensures multiset(NextPending(fs, edges, rest, f))[g] ==
      multiset(rest)[g] + if g != f && !HasEdges(edges, g) then SitesIn(fs, f, g) else 0
  {
    if f in fs {
      PendingOfCount(edges, f, fs[f], g);
    }
  }

  lemma NextHasEdges(fs: Functions, edges: multiset<Edge>, f: string, g: string)
    ensures HasEdges(NextEdges(fs, edges, f), g) <==> HasEdges(edges, g) || (g == f && MakesCalls(fs, f))
  {
    if f in fs {
      EdgesOfAdded(edges, f, fs[f]);
      SameCallers(edges, edges + EdgesOf(f, fs[f]), f, g);
      if fs[f] != [] {
        var site := fs[f][|fs[f]| - 1];
        assert (f, site.callee) in edges + EdgesOf(f, fs[f]);
      }
      forall e | e in edges
        ensures e in edges + EdgesOf(f, fs[f])
      {
      }
    }
  }

  lemma NextTerminates(fs: Functions, edges: multiset<Edge>, rest: seq<string>, f: string)
    ensures
      var edges', pending' := NextEdges(fs, edges, f), NextPending(fs, edges, rest, f);
      Shrunk(fs, edges, edges', rest + [f], pending')
  {
    RoundTerminates(fs, edges, rest, f);
  }

  /** What is pending is gone over. */
  lemma {:induction false} PendingIsGoneOver(fs: Functions, edges: multiset<Edge>, pending: seq<string>, g: string)
    ensures Rounds(fs, edges, pending)[g] >= multiset(pending)[g]
    decreases Fresh(fs, edges), WithEdges(edges, pending), |pending|
  {
    if pending != [] {
      var f, rest := pending[|pending| - 1], pending[..|pending| - 1];
      assert pending == rest + [f];
      RoundOf(fs, edges, rest, f);
      NextTerminates(fs, edges, rest, f);
      PendingIsGoneOver(fs, NextEdges(fs, edges, f), NextPending(fs, edges, rest, f), g);
      NextPendingCount(fs, edges, rest, f, g);
    }
  }

  /** Some other reachable function calls `g`. */
  ghost predicate CalledBy(fs: Functions, root: string, f: string, g: string) {
    f != g && Reachable(fs, root, f) && SitesIn(fs, f, g) > 0
  }

  /** Apart from its own body, `g` is called in one place at most. */
  ghost predicate CalledInOnePlace(fs: Functions, root: string, g: string) {
    forall f, h :: CalledBy(fs, root, f, g) && CalledBy(fs, root, h, g) ==> f == h && SitesIn(fs, f, g) == 1
  }

  /** That is so for all functions but the root that make calls. */
  ghost predicate AllInOnePlace(fs: Functions, root: string) {
    forall g :: MakesCalls(fs, g) && g != root ==> CalledInOnePlace(fs, root, g)
  }

  /** What is known of the functions gone over so far, and of those pending. */
  ghost predicate Underway(
    fs: Functions, root: string, edges: multiset<Edge>, pending: seq<string>, done: set<string>)
  {
    && (if done == {} then pending == [root] else root in done)
    && (forall n :: n in done || n in pending ==> Reachable(fs, root, n))
    && (forall g :: HasEdges(edges, g) <==> g in done && MakesCalls(fs, g))
    && (forall g :: g in pending && g != root ==> exists f :: f in done && CalledBy(fs, root, f, g))
  }

  lemma UnderwayStarts(fs: Functions, root: string)
    ensures Underway(fs, root, multiset{}, [root], {})
  {
    assert CallPath(fs, [root]) && Reachable(fs, root, root);
  }

  lemma SitesAreCalls(fs: Functions, f: string, g: string)
    ensures SitesIn(fs, f, g) > 0 <==> Calls(fs, f, g)
  {
    if f in fs {
      SitesCount(fs[f], g);
    }
  }

  lemma InNextPending(fs: Functions, edges: multiset<Edge>, rest: seq<string>, f: string, g: string)
    ensures g in NextPending(fs, edges, rest, f) <==>
      g in rest || (g != f && !HasEdges(edges, g) && SitesIn(fs, f, g) > 0)
  {
    NextPendingCount(fs, edges, rest, f, g);
    assert g in NextPending(fs, edges, rest, f) <==> multiset(NextPending(fs, edges, rest, f))[g] > 0;
    assert g in rest <==> multiset(rest)[g] > 0;
  }

  lemma UnderwayNext(
    fs: Functions, root: string, edges: multiset<Edge>, rest: seq<string>, f: string, done: set<string>)
    requires Underway(fs, root, edges, rest + [f], done)
    ensures Underway(fs, root, NextEdges(fs, edges, f), NextPending(fs, edges, rest, f), done + {f})
  {
    assert f in rest + [f];
    if done == {} {
      assert rest + [f] == [root];
      assert (rest + [f])[0] == f;
    }
    forall g
      ensures HasEdges(NextEdges(fs, edges, f), g) <==> g in done + {f} && MakesCalls(fs, g)
    {
      NextHasEdges(fs, edges, f, g);
    }
    forall g | g in NextPending(fs, edges, rest, f)
      ensures Reachable(fs, root, g) && (g != root ==> exists h :: h in done + {f} && CalledBy(fs, root, h, g))
    {
      InNextPending(fs, edges, rest, f, g);
      if g in rest {
        assert g in rest + [f];
      } else {
        SitesAreCalls(fs, f, g);
        ReachableNext(fs, root, f, g);
        assert CalledBy(fs, root, f, g);
      }
    }
  }

  /** How often `g` is pending, or once if it was gone over. */
  ghost function Turns(pending: seq<string>, done: set<string>, g: string): nat {
    multiset(pending)[g] + if g in done then 1 else 0
  }

  lemma OneTurnNext(
    fs: Functions, root: string, edges: multiset<Edge>, rest: seq<string>, f: string, done: set<string>, g: string)
    requires AllInOnePlace(fs, root) && Underway(fs, root, edges, rest + [f], done)
    requires MakesCalls(fs, g) && Turns(rest + [f], done, g) <= 1
    requires MakesCalls(fs, f) ==> Turns(rest + [f], done, f) <= 1
    ensures Turns(NextPending(fs, edges, rest, f), done + {f}, g) <= 1
  {
    NextPendingCount(fs, edges, rest, f, g);
    assert multiset(rest + [f]) == multiset(rest) + multiset{f};
    if g != f && !HasEdges(edges, g) && SitesIn(fs, f, g) > 0 {
      assert f in rest + [f];
      assert CalledBy(fs, root, f, g) && f !in done;
      if done == {} {
        assert rest + [f] == [root];
        assert (rest + [f])[0] == f && rest == [];
      } else {
        assert g in rest ==> g in rest + [f];
      }
    }
  }

  /** If functions are called in one place each, none that makes calls is gone over twice. */
  lemma {:induction false} OneTurnEach(
    fs: Functions, root: string, edges: multiset<Edge>, pending: seq<string>, done: set<string>, g: string)
    requires AllInOnePlace(fs, root) && Underway(fs, root, edges, pending, done) && MakesCalls(fs, g)
    requires forall h :: MakesCalls(fs, h) ==> Turns(pending, done, h) <= 1
    ensures Rounds(fs, edges, pending)[g] + (if g in done then 1 else 0) <= 1
    decreases Fresh(fs, edges), WithEdges(edges, pending), |pending|
  {
    if pending != [] {
      var f, rest := pending[|pending| - 1], pending[..|pending| - 1];
      assert pending == rest + [f];
      var edges', pending' := NextEdges(fs, edges, f), NextPending(fs, edges, rest, f);
      RoundOf(fs, edges, rest, f);
      NextTerminates(fs, edges, rest, f);
      UnderwayNext(fs, root, edges, rest, f, done);
      forall h | MakesCalls(fs, h)
        ensures Turns(pending', done + {f}, h) <= 1
      {
        OneTurnNext(fs, root, edges, rest, f, done, h);
      }
      OneTurnEach(fs, root, edges', pending', done + {f}, g);
      assert MakesCalls(fs, f) ==> Turns(pending, done, f) <= 1;
    }
  }

  /** If each function that makes calls is called in one place at most, there is one edge per call site. */
  lemma OnePlaceMeansOneEdge(fs: Functions, root: string, edges: multiset<Edge>, f: string, g: string)
    requires AllInOnePlace(fs, root) && EdgesPerRound(fs, edges, Rounds(fs, multiset{}, [root]))
    requires (f, g) in edges <==> Reachable(fs, root, f) && Calls(fs, f, g)
    ensures edges[(f, g)] == if Reachable(fs, root, f) then SitesIn(fs, f, g) else 0
  {
    var rounds, e: Edge := Rounds(fs, multiset{}, [root]), (f, g);
    assert edges[e] == rounds[e.0] * SitesIn(fs, e.0, e.1);
    SitesAreCalls(fs, f, g);
    if MakesCalls(fs, f) {
      OneRoundEach(fs, root, f);
      AtMostOnce(rounds[f], SitesIn(fs, f, g));
    }
  }

  lemma OneRoundEach(fs: Functions, root: string, f: string)
    requires AllInOnePlace(fs, root) && MakesCalls(fs, f)
    ensures Rounds(fs, multiset{}, [root])[f] <= 1
  {
    UnderwayStarts(fs, root);
    OneTurnEach(fs, root, multiset{}, [root], {}, f);
  }

  lemma AtMostOnce(n: nat, k: nat)
    requires n <= 1
    ensures n * k == if n * k > 0 then k else 0
  {
  }

  // --- calls that are repeated ---------------------------------------------------------------------------

  /** A path on which all but the last function was gone over. */
  ghost predicate DonePath(fs: Functions, root: string, done: set<string>, n: string) {
    exists p :: CallPath(fs, p) && p[0] == root && p[|p| - 1] == n && forall i :: 0 <= i < |p| - 1 ==> p[i] in done
  }

  /** Callees are done or pending, and everything was come to through functions that are done. */
  ghost predicate Tracked(fs: Functions, root: string, pending: seq<string>, done: set<string>) {
    && (root in done || root in pending)
    && (forall n, h :: n in done && Calls(fs, n, h) ==> h in done || h in pending)
    && (forall n :: n in done || n in pending ==> DonePath(fs, root, done, n))
  }

  lemma TrackedStarts(fs: Functions, root: string)
    ensures Tracked(fs, root, [root], {})
  {
    var p := [root];
    assert CallPath(fs, p) && p[0] == root && p[|p| - 1] == root;
    assert DonePath(fs, root, {}, root);
  }

  lemma DonePathGrows(fs: Functions, root: string, done: set<string>, f: string, n: string)
    requires DonePath(fs, root, done, n)
    ensures DonePath(fs, root, done + {f}, n)
  {
    var p :| CallPath(fs, p) && p[0] == root && p[|p| - 1] == n && forall i :: 0 <= i < |p| - 1 ==> p[i] in done;
    assert forall i :: 0 <= i < |p| - 1 ==> p[i] in done + {f};
  }

  lemma DonePathNext(fs: Functions, root: string, done: set<string>, f: string, g: string)
    requires DonePath(fs, root, done, f) && Calls(fs, f, g)
    ensures DonePath(fs, root, done + {f}, g)
  {
    var p :| CallPath(fs, p) && p[0] == root && p[|p| - 1] == f && forall i :: 0 <= i < |p| - 1 ==> p[i] in done;
    var q := p + [g];
    assert CallPath(fs, q) && q[0] == root && q[|q| - 1] == g;
    assert forall i :: 0 <= i < |q| - 1 ==> q[i] in done + {f};
  }

  lemma TrackedNext(
    fs: Functions, root: string, edges: multiset<Edge>, rest: seq<string>, f: string, done: set<string>)
    requires Underway(fs, root, edges, rest + [f], done) && Tracked(fs, root, rest + [f], done)
    ensures Tracked(fs, root, NextPending(fs, edges, rest, f), done + {f})
  {
    var pending' := NextPending(fs, edges, rest, f);
    assert f in rest + [f];
    forall n | n in done || n in rest
      ensures DonePath(fs, root, done + {f}, n)
    {
      assert n in rest ==> n in rest + [f];
      DonePathGrows(fs, root, done, f, n);
    }
    DonePathGrows(fs, root, done, f, f);
    forall g
      ensures g in rest ==> g in pending'
      ensures g in pending' ==> DonePath(fs, root, done + {f}, g)
      ensures Calls(fs, f, g) ==> g in done + {f} || g in pending'
    {
      InNextPending(fs, edges, rest, f, g);
      SitesAreCalls(fs, f, g);
      if Calls(fs, f, g) {
        DonePathNext(fs, root, done, f, g);
      }
    }
    assert forall n :: n in rest + [f] ==> n in rest || n == f;
  }

  /** Every way to `g` is through `f`. */
  ghost predicate AllPathsPass(fs: Functions, root: string, f: string, g: string) {
    forall p :: CallPath(fs, p) && p[0] == root && p[|p| - 1] == g ==> f in p
  }

  lemma NotYetDone(fs: Functions, root: string, pending: seq<string>, done: set<string>, f: string, g: string)
    requires Tracked(fs, root, pending, done) && f !in done && f != g && AllPathsPass(fs, root, f, g)
    ensures g !in done
  {
    assert g in done ==> DonePath(fs, root, done, g);
  }

  lemma {:induction false} GoneOverForEachSite(
    fs: Functions, root: string, edges: multiset<Edge>, pending: seq<string>, done: set<string>, f: string, g: string)
    requires Underway(fs, root, edges, pending, done) && Tracked(fs, root, pending, done)
    requires Reachable(fs, root, f) && f !in done && f != g && AllPathsPass(fs, root, f, g)
    ensures Rounds(fs, edges, pending)[g] >= SitesIn(fs, f, g)
    decreases Fresh(fs, edges), WithEdges(edges, pending), |pending|
  {
    if pending == [] {
      var p :| CallPath(fs, p) && p[0] == root && p[|p| - 1] == f;
      ClosedHasReachable(fs, done, p);
    } else {
      var t, rest := pending[|pending| - 1], pending[..|pending| - 1];
      assert pending == rest + [t];
      var edges', pending' := NextEdges(fs, edges, t), NextPending(fs, edges, rest, t);
      RoundOf(fs, edges, rest, t);
      if t == f {
        NotYetDone(fs, root, pending, done, f, g);
        NextPendingCount(fs, edges, rest, f, g);
        PendingIsGoneOver(fs, edges', pending', g);
      } else {
        NextTerminates(fs, edges, rest, t);
        UnderwayNext(fs, root, edges, rest, t, done);
        TrackedNext(fs, root, edges, rest, t, done);
        GoneOverForEachSite(fs, root, edges', pending', done + {t}, f, g);
      }
    }
  }

  /**
   If every way to a function is through one caller, it is gone over for each of the call sites there, and
   each of its own calls has so many edges.
   */
  lemma RepeatedCallsAreRepeated(fs: Functions, root: string, edges: multiset<Edge>, f: string, g: string, h: string)
    requires EdgesPerRound(fs, edges, Rounds(fs, multiset{}, [root]))
    requires Reachable(fs, root, f) && f != g && AllPathsPass(fs, root, f, g)
    ensures edges[(g, h)] >= SitesIn(fs, f, g) * SitesIn(fs, g, h)
  {
    var rounds, e := Rounds(fs, multiset{}, [root]), (g, h);
    assert edges[e] == rounds[e.0] * SitesIn(fs, e.0, e.1);
    UnderwayStarts(fs, root);
    TrackedStarts(fs, root);
    GoneOverForEachSite(fs, root, multiset{}, [root], {}, f, g);
    MoreRounds(SitesIn(fs, f, g), rounds[g], SitesIn(fs, g, h));
  }

  lemma MoreRounds(m: nat, n: nat, k: nat)
    requires m <= n
    ensures m * k <= n * k
  {
  }

  /** What was gone over, and what is still to be, makes up all. */
  ghost predicate RoundsLeft(
    fs: Functions, edges: multiset<Edge>, pending: seq<string>, rounds: multiset<string>, all: multiset<string>)
  {
    rounds + Rounds(fs, edges, pending) == all
  }

  lemma RoundsStep(
    fs: Functions, before: multiset<Edge>, after: multiset<Edge>, rest: seq<string>, more: seq<string>, f: string,
    rounds: multiset<string>, all: multiset<string>)
    requires RoundsLeft(fs, before, rest + [f], rounds, all)
    requires if f in fs then EdgesAdded(before, after, f, fs[f]) && more == PendingOf(before, f, fs[f])
             else after == before && more == []
    ensures RoundsLeft(fs, after, rest + more, rounds + multiset{f}, all)
    ensures f in fs ==> PendingAfter(before, after, f, fs[f], more)
  {
    RoundOf(fs, before, rest, f);
    if f in fs {
      EdgesAddedIs(before, after, f, fs[f]);
      PendingOfIs(before, f, fs[f]);
    } else {
      assert rest + more == rest;
    }
  }

  /** Edges out of one function change nothing for the others, and one that has some has some. */
  lemma SameCallers(before: multiset<Edge>, after: multiset<Edge>, f: string, g: string)
    requires forall e: Edge :: e.0 != f ==> after[e] == before[e]
    ensures g != f ==> (HasEdges(after, g) <==> HasEdges(before, g))
  {
    if g != f {
      if HasEdges(after, g) {
        var e :| e in after && e.0 == g;
        assert before[e] == after[e];
      }
      if HasEdges(before, g) {
        var e :| e in before && e.0 == g;
        assert before[e] == after[e];
      }
    }
  }
}
