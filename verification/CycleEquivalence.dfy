/**
 What the two tests on cycles are worth to the region analysis: when they make every cycle a natural loop,
 and when the ends of a recorded region are cycle equivalent, so that a cycle has both or neither.
 */
module CycleEquivalence {
  import opened Cfg
  import opened Options
  import opened Dominance
  import opened GotoProgram
  import opened NaturalLoops
  import opened SeseRegions

  /** A path of at least one edge that ends where it starts. */
  ghost predicate Cycle(g: Graph, c: seq<nat>) {
    IsPath(g, c) && |c| > 1 && c[0] == Last(c)
  }

  ghost predicate ReachableCycle(g: Graph, roots: set<nat>, c: seq<nat>) {
    Cycle(g, c) && Reachable(g, roots, c[0])
  }

  /** The sequence goes from `x` to `y` in one step. */
  ghost predicate StepOf(c: seq<nat>, x: nat, y: nat) {
    exists j :: 0 < j < |c| && c[j - 1] == x && c[j] == y
  }

  /** The cycle runs inside the loop of `h`, and comes to `h` over back edges only. */
  ghost predicate NaturalCycle(p: Program, c: seq<nat>, h: nat)
    requires WellFormed(p)
  {
    && h in c
    && (forall x :: x in c ==> Member(p, h, x))
    && (forall x: nat :: StepOf(c, x, h) ==> BackEdge(p, x, h))
  }

  ghost predicate CyclesAreNatural(p: Program)
    requires WellFormed(p)
  {
    forall c: seq<nat> :: ReachableCycle(LocalGraph(p), ENTRY, c) ==> exists h: nat :: NaturalCycle(p, c, h)
  }

  ghost function BackEdges(p: Program): (edges: set<(nat, nat)>)
    requires WellFormed(p)
    ensures forall x: nat, y: nat :: (x, y) in edges <==> BackEdge(p, x, y)
  {
    set x, y | x in Range(|p|) && y in Range(|p|) && BackEdge(p, x, y) :: (x, y)
  }

  ghost predicate HasStepOf(c: seq<nat>, edges: set<(nat, nat)>) {
    exists x: nat, y: nat :: StepOf(c, x, y) && (x, y) in edges
  }

  /** Without these edges, the reachable part of the graph has no cycle. */
  ghost predicate CutCycles(g: Graph, roots: set<nat>, edges: set<(nat, nat)>) {
    forall c: seq<nat> :: ReachableCycle(g, roots, c) ==> HasStepOf(c, edges)
  }

  /** Edges to a node that dominates the one they come from. */
  ghost predicate Returning(g: Graph, roots: set<nat>, edges: set<(nat, nat)>) {
    forall x: nat, y: nat :: (x, y) in edges ==> Dominates(g, roots, y, x)
  }

  /** Every strictly backwards edge is a back edge by itself. */
  ghost predicate BackwardsEdgesAreBackEdges(p: Program)
    requires WellFormed(p)
  {
    forall a: nat, b: nat :: a > b && ReachableEdge(p, a, b) ==> BackEdge(p, a, b)
  }

  ghost predicate ReachableEdge(p: Program, a: nat, b: nat)
    requires WellFormed(p)
  {
    LocalGraph(p).Edge(a, b) && Reachable(LocalGraph(p), ENTRY, a)
  }

  // --- walking round cycles ----------------------------------------------------------------------------

  /** The same cycle, from another of its nodes. */
  function Rotated(c: seq<nat>, i: nat): seq<nat>
    requires i < |c|
  {
    Join(c[i..], c[..i + 1])
  }

  lemma RotatedIsCycle(g: Graph, c: seq<nat>, i: nat)
    requires Cycle(g, c) && i < |c|
    ensures Cycle(g, Rotated(c, i)) && Rotated(c, i)[0] == c[i]
    ensures forall x :: x in Rotated(c, i) <==> x in c
    ensures i > 0 ==> Rotated(c, i)[|c| - 2] == c[i - 1]
    ensures |Rotated(c, i)| == |c|
  {
    PathSlice(g, c, i, |c|);
    PathSlice(g, c, 0, i + 1);
    PathJoin(g, c[i..], c[..i + 1]);
    assert c == c[..i] + c[i..];
  }

  lemma RotatedSteps(g: Graph, c: seq<nat>, i: nat, x: nat, y: nat)
    requires Cycle(g, c) && i < |c| && StepOf(Rotated(c, i), x, y)
    ensures StepOf(c, x, y)
  {
    var r := Rotated(c, i);
    var j :| 0 < j < |r| && r[j - 1] == x && r[j] == y;
    if j < |c| - i {
      assert c[i + j - 1] == x && c[i + j] == y;
    } else {
      var m := j - (|c| - i) + 1;
      assert c[m - 1] == x && c[m] == y;
    }
  }

  /** Whatever lies on a cycle is reached by a step of it. */
  lemma StepInto(g: Graph, c: seq<nat>, y: nat) returns (x: nat)
    requires Cycle(g, c) && y in c
    ensures StepOf(c, x, y)
  {
    var i :| 0 <= i < |c| && c[i] == y;
    var j := if i == 0 then |c| - 1 else i;
    x := c[j - 1];
  }

  lemma OnCycleReachable(g: Graph, roots: set<nat>, c: seq<nat>, x: nat)
    requires ReachableCycle(g, roots, c) && x in c
    ensures Reachable(g, roots, x)
  {
    var i :| 0 <= i < |c| && c[i] == x;
    var path: seq<nat> :| RootedPath(g, roots, c[0], path);
    PathSlice(g, c, 0, i + 1);
    PathJoin(g, path, c[..i + 1]);
    assert RootedPath(g, roots, x, Join(path, c[..i + 1]));
  }

  lemma RotatedReachable(g: Graph, roots: set<nat>, c: seq<nat>, i: nat)
    requires ReachableCycle(g, roots, c) && i < |c|
    ensures ReachableCycle(g, roots, Rotated(c, i))
  {
    RotatedIsCycle(g, c, i);
    OnCycleReachable(g, roots, c, c[i]);
  }

  /** The cycle from the end of one of its steps, which it comes back with. */
  lemma RotatedToStep(g: Graph, roots: set<nat>, c: seq<nat>, x: nat, y: nat) returns (r: seq<nat>)
    requires ReachableCycle(g, roots, c) && StepOf(c, x, y)
    ensures ReachableCycle(g, roots, r) && |r| == |c| && r[|r| - 2] == x && r[0] == y
    ensures forall z :: z in r <==> z in c
  {
    var j :| 0 < j < |c| && c[j - 1] == x && c[j] == y;
    RotatedIsCycle(g, c, j);
    RotatedReachable(g, roots, c, j);
    r := Rotated(c, j);
  }

  lemma FirstAfterStart(r: seq<nat>, h: nat) returns (j: nat)
    requires r != [] && h in r[1..]
    ensures 0 < j < |r| && r[j] == h && h !in r[1..j]
  {
    var k :| 0 <= k < |r[1..]| && r[1..][k] == h;
    j := 1;
    while r[j] != h
      invariant 0 < j <= k + 1 && h !in r[1..j]
      decreases k - j
    {
      assert r[1..j + 1] == r[1..j] + [r[j]];
      j := j + 1;
    }
  }

  lemma WayFromStart(g: Graph, r: seq<nat>, h: nat) returns (way: seq<nat>)
    requires Cycle(g, r) && h in r
    ensures IsPath(g, way) && way[0] == r[0] && StepOf(r, Last(way), h)
    ensures h !in way[1..] && forall x :: x in way ==> x in r
  {
    assert r == [r[0]] + r[1..] && Last(r) in r[1..];
    var j := FirstAfterStart(r, h);
    PathSlice(g, r, 0, j);
    way := r[..j];
    assert way[1..] == r[1..j];
  }

  /** The way round a cycle from one of its nodes to the first `h`. */
  lemma WayTo(g: Graph, c: seq<nat>, a: nat, h: nat) returns (way: seq<nat>)
    requires Cycle(g, c) && a in c && h in c
    ensures IsPath(g, way) && way[0] == a && StepOf(c, Last(way), h)
    ensures h !in way[1..] && forall x :: x in way ==> x in c
  {
    var i :| 0 <= i < |c| && c[i] == a;
    RotatedIsCycle(g, c, i);
    way := WayFromStart(g, Rotated(c, i), h);
    RotatedSteps(g, c, i, Last(way), h);
  }

  // --- when all cycles are natural -----------------------------------------------------------------------

  lemma HeadOfSteps(p: Program, c: seq<nat>, h: nat, x: nat)
    requires WellFormed(p) && Cycle(LocalGraph(p), c) && h in c && x in c
    requires forall y: nat :: StepOf(c, y, h) ==> BackEdge(p, y, h)
    ensures Member(p, h, x)
  {
    var g := LocalGraph(p);
    var way := WayTo(g, c, x, h);
    assert BackEdge(p, Last(way), h);
    if x != h {
      assert way == [x] + way[1..];
      assert PathBetween(g, x, Last(way), way);
    }
    assert InLoop(g, Last(way), h, x);
  }

  /** Two parts of a cycle that meet in `v`: the head of one of them heads them both. */
  lemma HeadOfBoth(g: Graph, roots: set<nat>, v: nat, h: nat, k: nat, c: seq<nat>, d: seq<nat>) returns (head: nat)
    requires Reachable(g, roots, v) && v in c && v in d
    requires Heads(g, roots, c, h) && Heads(g, roots, d, k)
    ensures head == h || head == k
    ensures forall x :: x in c || x in d ==> Dominates(g, roots, head, x)
  {
    DominatorsFormChain(g, roots, h, k, v);
    if Dominates(g, roots, h, k) {
      head := h;
      forall x | x in d
        ensures Dominates(g, roots, h, x)
      {
        DominatesTransitive(g, roots, h, k, x);
      }
    } else {
      head := k;
      forall x | x in c
        ensures Dominates(g, roots, k, x)
      {
        DominatesTransitive(g, roots, k, h, x);
      }
    }
  }

  /** One of the nodes that dominates them all. */
  ghost predicate Heads(g: Graph, roots: set<nat>, c: seq<nat>, h: nat) {
    h in c && forall x :: x in c ==> Dominates(g, roots, h, x)
  }

  /** A cycle that comes back to a dominator, but has a node it does not dominate, passes it in between. */
  lemma PassesInBetween(g: Graph, roots: set<nat>, r: seq<nat>, y: nat) returns (i: nat)
    requires Cycle(g, r) && Dominates(g, roots, r[0], r[|r| - 2])
    requires y in r && !Dominates(g, roots, r[0], y)
    ensures 1 < i < |r| - 1 && r[i] == r[0]
  {
    DominatesReflexive(g, roots, r[0]);
    var k :| 0 <= k < |r| && r[k] == y;
    var path: seq<nat> :| RootedPath(g, roots, y, path) && r[0] !in path;
    var rest := r[k..|r| - 1];
    PathSlice(g, r, k, |r| - 1);
    PathJoin(g, path, rest);
    assert RootedPath(g, roots, r[|r| - 2], Join(path, rest));
    var m :| 0 <= m < |rest| && rest[m] == r[0];
    i := k + m;
  }

  lemma SplitCycle(g: Graph, roots: set<nat>, r: seq<nat>, i: nat)
    requires ReachableCycle(g, roots, r) && 0 < i < |r| - 1 && r[i] == r[0]
    ensures ReachableCycle(g, roots, r[..i + 1]) && ReachableCycle(g, roots, r[i..])
    ensures forall x :: x in r <==> x in r[..i + 1] || x in r[i..]
  {
    PathSlice(g, r, 0, i + 1);
    PathSlice(g, r, i, |r|);
    assert r == r[..i] + r[i..];
  }

  /** If each cycle has a returning edge, one node of it dominates all others. */
  lemma {:induction false} DominatingNode(g: Graph, roots: set<nat>, edges: set<(nat, nat)>, c: seq<nat>)
    returns (h: nat)
    requires CutCycles(g, roots, edges) && Returning(g, roots, edges) && ReachableCycle(g, roots, c)
    ensures Heads(g, roots, c, h)
    decreases |c|
  {
    assert HasStepOf(c, edges);
    var u: nat, v: nat :| StepOf(c, u, v) && (u, v) in edges;
    var r := RotatedToStep(g, roots, c, u, v);
    h := v;
    if y :| y in r && !Dominates(g, roots, v, y) {
      var i := PassesInBetween(g, roots, r, y);
      SplitCycle(g, roots, r, i);
      var first := DominatingNode(g, roots, edges, r[..i + 1]);
      var second := DominatingNode(g, roots, edges, r[i..]);
      h := HeadOfBoth(g, roots, v, first, second, r[..i + 1], r[i..]);
    }
  }

  ghost predicate StartOnlyAtEnds(d: seq<nat>) {
    forall i :: 0 < i < |d| - 1 ==> d[i] != d[0]
  }

  lemma ShortCut(g: Graph, d: seq<nat>, i: nat, j: nat) returns (e: seq<nat>)
    requires Cycle(g, d) && 0 < i < j < |d| - 1 && d[i] == d[j] && StartOnlyAtEnds(d)
    ensures Cycle(g, e) && StartOnlyAtEnds(e) && e[0] == d[0] && |e| < |d| && e[|e| - 2] == d[|d| - 2]
    ensures forall x :: x in e ==> x in d
  {
    PathSlice(g, d, 0, i + 1);
    PathSlice(g, d, j, |d|);
    PathJoin(g, d[..i + 1], d[j..]);
    e := Join(d[..i + 1], d[j..]);
  }

  lemma NotDominatedFirst(g: Graph, roots: set<nat>, d: seq<nat>, j: nat)
    requires Cycle(g, d) && Reachable(g, roots, d[0]) && 0 < j < |d| && d[j] !in d[..j]
    requires Dominates(g, roots, d[0], d[j])
    ensures !Dominates(g, roots, d[j], d[j - 1])
  {
    var h, v := d[0], d[j];
    assert h in d[..j];
    if Dominates(g, roots, v, d[j - 1]) {
      forall path: seq<nat> | RootedPath(g, roots, h, path)
        ensures v in path
      {
        PathSlice(g, d, 0, j);
        PathJoin(g, path, d[..j]);
        assert RootedPath(g, roots, d[j - 1], Join(path, d[..j]));
      }
      DominatesAntisymmetric(g, roots, v, h);
    }
  }

  /** A cycle through its dominating node once comes back to it over a returning edge. */
  lemma {:induction false} ComesBack(g: Graph, roots: set<nat>, edges: set<(nat, nat)>, d: seq<nat>)
    requires CutCycles(g, roots, edges) && Returning(g, roots, edges) && ReachableCycle(g, roots, d)
    requires StartOnlyAtEnds(d) && Heads(g, roots, d, d[0])
    ensures (d[|d| - 2], d[0]) in edges
    decreases |d|
  {
    assert HasStepOf(d, edges);
    var u: nat, v: nat :| StepOf(d, u, v) && (u, v) in edges;
    var j :| 0 < j < |d| && d[j - 1] == u && d[j] == v;
    if j < |d| - 1 {
      if v !in d[..j] {
        NotDominatedFirst(g, roots, d, j);
      }
      var i :| 0 <= i < j && d[i] == v;
      var e := ShortCut(g, d, i, j);
      ComesBack(g, roots, edges, e);
    }
  }

  /** The last turn of a cycle that starts with `h`. */
  lemma LastTurn(g: Graph, r: seq<nat>) returns (d: seq<nat>)
    requires Cycle(g, r)
    ensures Cycle(g, d) && StartOnlyAtEnds(d) && d[0] == r[0] && d[|d| - 2] == r[|r| - 2]
    ensures forall x :: x in d ==> x in r
  {
    var i := LastIndex(r[..|r| - 1], r[0]);
    PathSlice(g, r, i, |r|);
    d := r[i..];
    assert forall k :: 0 < k < |d| - 1 ==> d[k] == r[..|r| - 1][i + 1..][k - 1];
  }

  lemma StepsIntoHead(g: Graph, roots: set<nat>, edges: set<(nat, nat)>, c: seq<nat>, h: nat, x: nat)
    requires CutCycles(g, roots, edges) && Returning(g, roots, edges) && ReachableCycle(g, roots, c)
    requires Heads(g, roots, c, h) && StepOf(c, x, h)
    ensures (x, h) in edges
  {
    var r := RotatedToStep(g, roots, c, x, h);
    var d := LastTurn(g, r);
    ComesBack(g, roots, edges, d);
  }

  /** All cycles are natural loops exactly if none is left without the back edges. */
  lemma NaturalExactly(p: Program)
    requires WellFormed(p)
    ensures CyclesAreNatural(p) <==> CutCycles(LocalGraph(p), ENTRY, BackEdges(p))
  {
    var g, edges := LocalGraph(p), BackEdges(p);
    if CyclesAreNatural(p) {
      forall c: seq<nat> | ReachableCycle(g, ENTRY, c)
        ensures HasStepOf(c, edges)
      {
        var h: nat :| NaturalCycle(p, c, h);
        var x := StepInto(g, c, h);
        assert (x, h) in edges;
      }
    }
    if CutCycles(g, ENTRY, edges) {
      forall c: seq<nat> | ReachableCycle(g, ENTRY, c)
        ensures exists h: nat :: NaturalCycle(p, c, h)
      {
        var h := CutIsNatural(p, c);
      }
    }
  }

  lemma CutIsNatural(p: Program, c: seq<nat>) returns (h: nat)
    requires WellFormed(p) && CutCycles(LocalGraph(p), ENTRY, BackEdges(p))
    requires ReachableCycle(LocalGraph(p), ENTRY, c)
    ensures NaturalCycle(p, c, h)
  {
    var g, edges := LocalGraph(p), BackEdges(p);
    h := DominatingNode(g, ENTRY, edges, c);
    forall x: nat | StepOf(c, x, h)
      ensures BackEdge(p, x, h)
    {
      StepsIntoHead(g, ENTRY, edges, c, h, x);
    }
    forall x | x in c
      ensures Member(p, h, x)
    {
      HeadOfSteps(p, c, h, x);
    }
  }

  // --- what the two tests imply ----------------------------------------------------------------------------

  predicate JumpsToItself(p: Program, h: nat) {
    h < |p| && p[h].Goto? && p[h].target == h
  }

  lemma {:induction false} Ascends(c: seq<nat>, k: nat)
    requires k < |c| && forall j :: 0 < j < |c| ==> c[j - 1] < c[j]
    ensures c[0] + k <= c[k]
  {
    if k > 0 {
      Ascends(c, k - 1);
    }
  }

  lemma NotForwardIsGoto(p: Program, a: nat, b: nat)
    requires WellFormed(p) && LocalGraph(p).Edge(a, b) && a >= b
    ensures BackGoto(p, a, b)
  {
  }

  /** A cycle goes backwards somewhere. */
  lemma BackwardsStep(g: Graph, c: seq<nat>) returns (x: nat, y: nat)
    requires Cycle(g, c)
    ensures StepOf(c, x, y) && x in c && x >= y && g.Edge(x, y)
  {
    if forall j :: 0 < j < |c| ==> c[j - 1] < c[j] {
      Ascends(c, |c| - 1);
    }
    var j :| 0 < j < |c| && c[j - 1] >= c[j];
    x, y := c[j - 1], c[j];
  }

  lemma BackwardsIsBackEdge(p: Program, x: nat, y: nat)
    requires WellFormed(p) && BackwardsEdgesAreBackEdges(p) && ReachableEdge(p, x, y) && x >= y
    ensures (x, y) in BackEdges(p)
  {
    NotForwardIsGoto(p, x, y);
    if x == y {
      DominatesReflexive(LocalGraph(p), ENTRY, x);
    }
    assert BackEdge(p, x, y);
  }

  lemma BackwardsEdgesCut(p: Program)
    requires WellFormed(p) && BackwardsEdgesAreBackEdges(p)
    ensures CutCycles(LocalGraph(p), ENTRY, BackEdges(p))
  {
    var g := LocalGraph(p);
    forall c: seq<nat> | ReachableCycle(g, ENTRY, c)
      ensures HasStepOf(c, BackEdges(p))
    {
      var x, y := BackwardsStep(g, c);
      OnCycleReachable(g, ENTRY, c, x);
      BackwardsIsBackEdge(p, x, y);
    }
  }

  /** Where the tests pass, only a jump to itself can stand in for another backwards edge to the same place. */
  lemma TestsSufficeExactly(p: Program)
    requires WellFormed(p) && CyclesAreSimple(p)
    ensures BackwardsEdgesAreBackEdges(p) <==>
      forall a: nat, h: nat :: JumpsToItself(p, h) && a > h && ReachableEdge(p, a, h) ==>
        Dominates(LocalGraph(p), ENTRY, h, a)
    ensures BackwardsEdgesAreBackEdges(p) ==> CyclesAreNatural(p)
  {
    var g := LocalGraph(p);
    GraphsAgree(p);
    forall a: nat, b: nat | a > b && ReachableEdge(p, a, b) && (JumpsToItself(p, b) ==> Dominates(g, ENTRY, b, a))
      ensures BackEdge(p, a, b)
    {
      NotForwardIsGoto(p, a, b);
      assert BackwardsEdgesEnterHeader(p, b) && FlowGraph(p).Edge(a, b);
      assert IsHeader(p, b);
      var m: nat :| BackEdge(p, m, b);
      if m != b {
        assert g.Edge(m, b) && FlowGraph(p).Edge(m, b);
        assert SingleBackwardsEdge(FlowGraph(p), b);
        assert m == a;
      }
    }
    if BackwardsEdgesAreBackEdges(p) {
      BackwardsEdgesCut(p);
      NaturalExactly(p);
    }
  }

  lemma HiddenCycleLocal(p: Program, a: nat, b: nat)
    requires p == [Goto(3, false), Goto(1, false), Plain, Goto(1, false), EndFunction]
    ensures WellFormed(p)
    ensures LocalGraph(p).Edge(a, b) <==> (a, b) in {(0, 1), (0, 3), (1, 1), (1, 2), (2, 3), (3, 1), (3, 4)}
  {
    assert WellFormed(p);
    if a < |p| {
      assert LocalSuccessors(p, a) ==
        if a == 0 then [1, 3] else if a == 1 then [2, 1] else if a == 2 then [3] else if a == 3 then [4, 1] else [];
    }
  }

  lemma HiddenCycleFlow(p: Program, a: nat, b: nat)
    requires p == [Goto(3, false), Goto(1, false), Plain, Goto(1, false), EndFunction]
    ensures WellFormed(p)
    ensures FlowGraph(p).Edge(a, b) && a > b ==> a == 3 && b == 1
  {
    assert WellFormed(p);
    if a < |p| {
      assert Successors(p, a) ==
        if a == 0 then [3, 1] else if a == 1 then [1, 2] else if a == 2 then [3] else if a == 3 then [1, 4] else [];
    }
  }

  lemma HiddenCycleIsSimple(p: Program)
    requires p == [Goto(3, false), Goto(1, false), Plain, Goto(1, false), EndFunction]
    ensures WellFormed(p) && CyclesAreSimple(p)
  {
    assert WellFormed(p);
    forall a: nat, b: nat
      ensures FlowGraph(p).Edge(a, b) && a > b ==> a == 3 && b == 1
    {
      HiddenCycleFlow(p, a, b);
    }
    HiddenCycleLocal(p, 0, 1);
    assert RootedPath(LocalGraph(p), ENTRY, 1, [0, 1]);
    DominatesReflexive(LocalGraph(p), ENTRY, 1);
    assert BackEdge(p, 1, 1);
  }

  lemma EnteredTwice(g: Graph, c: seq<nat>)
    requires g.Edge(0, 1) && g.Edge(0, 3) && g.Edge(1, 2) && g.Edge(2, 3) && g.Edge(3, 1) && c == [1, 2, 3, 1]
    ensures ReachableCycle(g, ENTRY, c) && forall h: nat :: !Heads(g, ENTRY, c, h)
    ensures !Dominates(g, ENTRY, 1, 3)
  {
    assert RootedPath(g, ENTRY, 1, [0, 1]) && RootedPath(g, ENTRY, 3, [0, 3]);
    assert !Dominates(g, ENTRY, 1, 3) && !Dominates(g, ENTRY, 2, 1) && !Dominates(g, ENTRY, 3, 1);
    assert c[0] == 1 && c[2] == 3;
  }

  /** The tests pass although a cycle can be entered in two places: its one backwards edge ends at a self-jump. */
  lemma SelfJumpHidesCycle(p: Program, c: seq<nat>)
    requires p == [Goto(3, false), Goto(1, false), Plain, Goto(1, false), EndFunction] && c == [1, 2, 3, 1]
    ensures WellFormed(p) && CyclesAreSimple(p) && ReachableCycle(LocalGraph(p), ENTRY, c)
    ensures forall h: nat :: !Heads(LocalGraph(p), ENTRY, c, h)
    ensures !HasStepOf(c, BackEdges(p)) && !CyclesAreNatural(p)
  {
    HiddenCycleIsSimple(p);
    HiddenCycleLocal(p, 0, 1);
    HiddenCycleLocal(p, 0, 3);
    HiddenCycleLocal(p, 1, 2);
    HiddenCycleLocal(p, 2, 3);
    HiddenCycleLocal(p, 3, 1);
    EnteredTwice(LocalGraph(p), c);
    forall x: nat, y: nat | StepOf(c, x, y)
      ensures (x, y) !in BackEdges(p)
    {
      var j :| 0 < j < |c| && c[j - 1] == x && c[j] == y;
      assert j == 1 || j == 2 || j == 3;
    }
    NaturalExactly(p);
  }

  // --- cycle equivalence -----------------------------------------------------------------------------------

  /** Every cycle has both instructions or neither. */
  ghost predicate CycleEquivalent(g: Graph, a: nat, b: nat) {
    forall c: seq<nat> :: Cycle(g, c) ==> (a in c <==> b in c)
  }

  /** The instructions that go back to the header of a loop around `a`. */
  ghost function LoopTails(p: Program, a: nat): set<nat>
    requires WellFormed(p)
  {
    set m, h | m in Range(|p|) && h in LoopsAround(p, a) && BackEdge(p, m, h) :: m
  }

  lemma EntryReachable(p: Program, a: nat, b: nat)
    requires WellFormed(p) && Region(p, a, b)
    ensures Reachable(LocalGraph(p), ENTRY, a) && !Dominates(LocalGraph(p), ENTRY, b, a)
  {
    var g := LocalGraph(p);
    DominatorReachable(g, ENTRY, a, b);
    if Dominates(g, ENTRY, b, a) {
      DominatesAntisymmetric(g, ENTRY, a, b);
    }
  }

  lemma CycleThroughIsReachable(p: Program, c: seq<nat>, x: nat) returns (r: seq<nat>)
    requires WellFormed(p) && Cycle(LocalGraph(p), c) && x in c && Reachable(LocalGraph(p), ENTRY, x)
    ensures ReachableCycle(LocalGraph(p), ENTRY, r) && r[0] == x && forall y :: y in r <==> y in c
  {
    var i :| 0 <= i < |c| && c[i] == x;
    RotatedIsCycle(LocalGraph(p), c, i);
    r := Rotated(c, i);
  }

  /** Round a cycle that has a dominator of `a` but not `a`, all of it can be got to without `a`. */
  lemma NotThroughEntry(g: Graph, roots: set<nat>, a: nat, h: nat, r: seq<nat>)
    requires Cycle(g, r) && h in r && a !in r
    requires Reachable(g, roots, a) && Dominates(g, roots, h, a)
    ensures !Dominates(g, roots, a, r[0])
  {
    if Dominates(g, roots, a, h) {
      DominatesAntisymmetric(g, roots, h, a);
    }
    var path: seq<nat> :| RootedPath(g, roots, h, path) && a !in path;
    var i :| 0 <= i < |r| && r[i] == h;
    PathSlice(g, r, i, |r|);
    PathJoin(g, path, r[i..]);
    assert RootedPath(g, roots, r[0], Join(path, r[i..]));
  }

  lemma HeadOfExitHeadsEntry(p: Program, a: nat, b: nat, r: seq<nat>, h: nat)
    requires WellFormed(p) && LoopRegion(p, a, b) && NaturalCycle(p, r, h) && b in r
    ensures Reachable(LocalGraph(p), ENTRY, a) && Dominates(LocalGraph(p), ENTRY, h, a)
  {
    assert Member(p, h, b);
    EntryReachable(p, a, b);
    SharedLoop(p, a, b, h);
    HeaderDominatesMembers(p, h, a);
  }

  /** If all cycles are natural, a cycle through an exit passes its entry. */
  lemma ExitCyclesPassEntry(p: Program, a: nat, b: nat, c: seq<nat>)
    requires WellFormed(p) && CyclesAreNatural(p) && LoopRegion(p, a, b)
    requires Cycle(LocalGraph(p), c) && b in c
    ensures a in c
  {
    if a !in c {
      var r := CycleThroughIsReachable(p, c, b);
      var h: nat :| NaturalCycle(p, r, h);
      HeadOfExitHeadsEntry(p, a, b, r, h);
      NotThroughEntry(LocalGraph(p), ENTRY, a, h, r);
    }
  }

  /** The ends of a region are in the same loops. */
  lemma SharedLoop(p: Program, a: nat, b: nat, h: nat)
    requires WellFormed(p) && LoopsAround(p, a) == LoopsAround(p, b)
    ensures Member(p, h, a) <==> Member(p, h, b)
  {
    forall x: nat | Member(p, h, x)
      ensures h in LoopsAround(p, x)
    {
      var m: nat :| BackEdge(p, m, h) && InLoop(LocalGraph(p), m, h, x);
    }
  }

  lemma TailOfLoop(p: Program, a: nat, m: nat, h: nat)
    requires WellFormed(p) && Member(p, h, a) && BackEdge(p, m, h)
    ensures m in LoopTails(p, a)
  {
    SharedLoop(p, a, a, h);
    assert h in LoopsAround(p, a);
  }

  /** From `a` to `m`, on to a dominator of `a` and back to `a`, without `b`. */
  lemma RoundWithout(g: Graph, roots: set<nat>, a: nat, b: nat, m: nat, h: nat, way: seq<nat>) returns (c: seq<nat>)
    requires !Dominates(g, roots, b, a) && Dominates(g, roots, h, a) && g.Edge(m, h)
    requires PathBetween(g, a, m, way) && b !in way
    ensures Cycle(g, c) && a in c && b !in c
  {
    var path: seq<nat> :| RootedPath(g, roots, a, path) && b !in path;
    var i :| 0 <= i < |path| && path[i] == h;
    PathSlice(g, path, i, |path|);
    PathExtend(g, way, h);
    PathJoin(g, way + [h], path[i..]);
    c := Join(way + [h], path[i..]);
    assert h in path[i..];
  }

  /** Once round the loop without the exit, if a tail can be got to without it. */
  lemma CycleWithoutExit(p: Program, a: nat, b: nat, m: nat, h: nat, way: seq<nat>) returns (c: seq<nat>)
    requires WellFormed(p) && Region(p, a, b) && Member(p, h, a) && BackEdge(p, m, h)
    requires PathBetween(LocalGraph(p), a, m, way) && b !in way
    ensures Cycle(LocalGraph(p), c) && a in c && b !in c
  {
    EntryReachable(p, a, b);
    HeaderDominatesMembers(p, h, a);
    assert LocalGraph(p).Edge(m, h);
    c := RoundWithout(LocalGraph(p), ENTRY, a, b, m, h, way);
  }

  /** On a natural cycle, going back to its header is leaving. */
  lemma LeavingWay(p: Program, a: nat, r: seq<nat>, h: nat, exits: set<nat>) returns (way: seq<nat>)
    requires WellFormed(p) && Cycle(LocalGraph(p), r) && a in r && NaturalCycle(p, r, h)
    requires LoopTails(p, a) <= exits
    ensures ExitPath(LocalGraph(p), exits, a, way) && forall x :: x in way ==> x in r
  {
    way := WayTo(LocalGraph(p), r, a, h);
    TailOfLoop(p, a, Last(way), h);
  }

  /** If all cycles are natural, a cycle through an entry passes the exit before it is back at a header. */
  lemma EntryCyclesPassExit(p: Program, a: nat, b: nat, c: seq<nat>)
    requires WellFormed(p) && CyclesAreNatural(p) && Reachable(LocalGraph(p), ENTRY, a)
    requires PostDominates(LocalGraph(p), Exits(p) + LoopTails(p, a), b, a)
    requires Cycle(LocalGraph(p), c) && a in c
    ensures b in c
  {
    var r := CycleThroughIsReachable(p, c, a);
    var h: nat :| NaturalCycle(p, r, h);
    var way := LeavingWay(p, a, r, h, Exits(p) + LoopTails(p, a));
    assert b in way;
  }

  /**
   If all cycles are natural, the ends of a region are cycle equivalent exactly if the exit still
   post-dominates the entry when going back to a header counts as leaving, too.
   */
  lemma CycleEquivalentExactly(p: Program, a: nat, b: nat)
    requires WellFormed(p) && CyclesAreNatural(p) && LoopRegion(p, a, b)
    ensures CycleEquivalent(LocalGraph(p), a, b) <==>
      PostDominates(LocalGraph(p), Exits(p) + LoopTails(p, a), b, a)
  {
    var g, exits := LocalGraph(p), Exits(p) + LoopTails(p, a);
    EntryReachable(p, a, b);
    if PostDominates(g, exits, b, a) {
      forall c: seq<nat> | Cycle(g, c)
        ensures a in c <==> b in c
      {
        if a in c {
          EntryCyclesPassExit(p, a, b, c);
        }
        if b in c {
          ExitCyclesPassEntry(p, a, b, c);
        }
      }
    }
    if CycleEquivalent(g, a, b) {
      var out: seq<nat> :| ExitPath(g, Exits(p), a, out);
      assert ExitPath(g, exits, a, out);
      forall way: seq<nat> | ExitPath(g, exits, a, way)
        ensures b in way
      {
        if Last(way) in Exits(p) {
          assert ExitPath(g, Exits(p), a, way);
        } else if b !in way {
          var h: nat :| h in LoopsAround(p, a) && BackEdge(p, Last(way), h);
          var c := CycleWithoutExit(p, a, b, Last(way), h, way);
        }
      }
    }
  }

  /** What is recorded is cycle equivalent under exactly that condition, if all cycles are natural. */
  lemma RecordedExactly(p: Program, regions: map<nat, nat>, a: nat)
    requires WellFormed(p) && CyclesAreNatural(p) && ExactRegions(p, regions) && a in regions
    ensures CycleEquivalent(LocalGraph(p), a, regions[a]) <==>
      PostDominates(LocalGraph(p), Exits(p) + LoopTails(p, a), regions[a], a)
  {
    assert RegionExits(p)[a] == RegionExit(p, a);
    RegionExitIsClosest(p, a, regions[a]);
    CycleEquivalentExactly(p, a, regions[a]);
  }

  // --- a region that is not cycle equivalent -----------------------------------------------------------------

  lemma EarlyTurnLocal(p: Program, a: nat, b: nat)
    requires p == [Plain, Goto(4, false), Goto(5, false), Plain, Goto(0, true), EndFunction]
    ensures WellFormed(p)
    ensures LocalGraph(p).Edge(a, b) <==> (a, b) in {(0, 1), (1, 2), (1, 4), (2, 3), (2, 5), (3, 4), (4, 0)}
  {
    assert WellFormed(p);
    if a < |p| {
      assert LocalSuccessors(p, a) ==
        if a == 0 then [1] else if a == 1 then [2, 4] else if a == 2 then [3, 5] else if a == 3 then [4]
        else if a == 4 then [0] else [];
    }
  }

  /** A node with one predecessor, which is not a root, is dominated by it. */
  lemma OnlyPredecessorDominates(g: Graph, roots: set<nat>, a: nat, b: nat)
    requires b !in roots && forall x: nat :: g.Edge(x, b) ==> x == a
    ensures Dominates(g, roots, a, b)
  {
    forall path: seq<nat> | RootedPath(g, roots, b, path)
      ensures a in path
    {
      assert g.Edge(path[|path| - 2], path[|path| - 1]);
    }
  }

  ghost predicate EarlyTurnGraph(g: Graph) {
    && g.Valid() && |g.out| == 6
    && forall a: nat, b: nat ::
         g.Edge(a, b) <==> (a, b) in {(0, 1), (1, 2), (1, 4), (2, 3), (2, 5), (3, 4), (4, 0)}
  }

  lemma EarlyTurnDominance(g: Graph)
    requires EarlyTurnGraph(g)
    ensures Reachable(g, ENTRY, 2) && Reachable(g, ENTRY, 4)
    ensures Dominates(g, ENTRY, 1, 2) && Dominates(g, ENTRY, 2, 5) && Dominates(g, ENTRY, 0, 4)
  {
    assert RootedPath(g, ENTRY, 2, [0, 1, 2]) && RootedPath(g, ENTRY, 4, [0, 1, 4]);
    OnlyPredecessorDominates(g, ENTRY, 1, 2);
    OnlyPredecessorDominates(g, ENTRY, 2, 5);
  }

  lemma EarlyTurnPostDominance(g: Graph, c: nat)
    requires EarlyTurnGraph(g)
    ensures PostDominates(g, {5}, 2, 1)
    ensures PostDominates(g, {5}, c, 1) ==> c == 1 || c == 2 || c == 5
  {
    assert ExitPath(g, {5}, 1, [1, 2, 5]);
    forall path: seq<nat> | ExitPath(g, {5}, 1, path)
      ensures 2 in path
    {
      assert g.Edge(path[|path| - 2], path[|path| - 1]);
    }
    if PostDominates(g, {5}, c, 1) {
      assert c in [1, 2, 5];
    }
  }

  lemma EarlyTurnLoop(g: Graph)
    requires EarlyTurnGraph(g)
    ensures InLoop(g, 4, 0, 1) && InLoop(g, 4, 0, 2)
  {
    assert PathBetween(g, 1, 4, [1, 4]) && 0 !in [1, 4];
    assert PathBetween(g, 2, 4, [2, 3, 4]) && 0 !in [2, 3, 4];
  }

  lemma EarlyTurnGoesOn(g: Graph, n: nat)
    requires EarlyTurnGraph(g) && n < 5
    ensures g.out[n] != [] && g.out[n] != [n]
  {
    assert g.Edge(n, if n == 4 then 0 else n + 1) by {
      assert n == 0 || n == 1 || n == 2 || n == 3 || n == 4;
    }
  }

  lemma EarlyTurnExits(p: Program)
    requires WellFormed(p) && |p| == 6 && EarlyTurnGraph(LocalGraph(p))
    ensures Exits(p) == {5}
  {
    forall n: nat | n < 5
      ensures n !in Exits(p)
    {
      EarlyTurnGoesOn(LocalGraph(p), n);
    }
  }

  lemma EarlyTurnHasGraph(p: Program)
    requires p == [Plain, Goto(4, false), Goto(5, false), Plain, Goto(0, true), EndFunction]
    ensures WellFormed(p) && EarlyTurnGraph(LocalGraph(p))
  {
    assert WellFormed(p);
    var g := LocalGraph(p);
    forall a: nat, b: nat
      ensures g.Edge(a, b) <==> (a, b) in {(0, 1), (1, 2), (1, 4), (2, 3), (2, 5), (3, 4), (4, 0)}
    {
      EarlyTurnLocal(p, a, b);
    }
  }

  lemma EarlyTurnBackEdges(p: Program, m: nat, h: nat)
    requires p == [Plain, Goto(4, false), Goto(5, false), Plain, Goto(0, true), EndFunction] && WellFormed(p)
    requires EarlyTurnGraph(LocalGraph(p))
    ensures BackEdge(p, m, h) <==> m == 4 && h == 0
    ensures LocalGraph(p).Edge(m, h) && m > h ==> m == 4 && h == 0
  {
    EarlyTurnDominance(LocalGraph(p));
  }

  lemma EarlyTurnSameLoops(p: Program)
    requires WellFormed(p) && EarlyTurnGraph(LocalGraph(p))
    requires forall m: nat, h: nat :: BackEdge(p, m, h) <==> m == 4 && h == 0
    ensures LoopsAround(p, 1) == LoopsAround(p, 2)
  {
    EarlyTurnLoop(LocalGraph(p));
    assert BackEdge(p, 4, 0);
    assert Member(p, 0, 1) && Member(p, 0, 2);
    forall h: nat
      ensures Member(p, h, 1) <==> Member(p, h, 2)
    {
    }
  }

  lemma EarlyTurnRegion(p: Program)
    requires WellFormed(p) && |p| == 6 && EarlyTurnGraph(LocalGraph(p)) && NontrivialEntry(p, 1)
    requires Exits(p) == {5} && LoopsAround(p, 1) == LoopsAround(p, 2)
    ensures RegionExit(p, 1) == Some(2)
  {
    var g := LocalGraph(p);
    EarlyTurnDominance(g);
    EarlyTurnPostDominance(g, 2);
    assert LoopRegion(p, 1, 2);
    forall c: nat | LoopRegion(p, 1, c)
      ensures Dominates(g, ENTRY, 2, c)
    {
      EarlyTurnPostDominance(g, c);
      DominatesReflexive(g, ENTRY, 2);
    }
    RegionExitIsClosest(p, 1, 2);
  }

  lemma EarlyTurnIsSimple(p: Program)
    requires WellFormed(p) && FlowGraph(p) == LocalGraph(p)
    requires forall m: nat, h: nat :: BackEdge(p, m, h) <==> m == 4 && h == 0
    requires forall m: nat, h: nat :: LocalGraph(p).Edge(m, h) && m > h ==> m == 4 && h == 0
    ensures CyclesAreSimple(p) && BackwardsEdgesAreBackEdges(p)
  {
    assert BackEdge(p, 4, 0);
    assert IsHeader(p, 0);
    forall b: nat
      ensures BackwardsEdgesEnterHeader(p, b)
    {
    }
  }

  lemma EarlyTurnFacts(p: Program)
    requires p == [Plain, Goto(4, false), Goto(5, false), Plain, Goto(0, true), EndFunction]
    ensures WellFormed(p) && EarlyTurnGraph(LocalGraph(p)) && NontrivialEntry(p, 1)
    ensures FlowGraph(p) == LocalGraph(p)
    ensures forall m: nat, h: nat :: BackEdge(p, m, h) <==> m == 4 && h == 0
    ensures forall m: nat, h: nat :: LocalGraph(p).Edge(m, h) && m > h ==> m == 4 && h == 0
  {
    EarlyTurnHasGraph(p);
    forall m: nat, h: nat
      ensures BackEdge(p, m, h) <==> m == 4 && h == 0
      ensures LocalGraph(p).Edge(m, h) && m > h ==> m == 4 && h == 0
    {
      EarlyTurnBackEdges(p, m, h);
    }
    assert StartsNoThread(p);
    GraphsAgree(p);
    assert Successors(p, 1) == [4, 2];
  }

  lemma EarlyTurnCycle(g: Graph, c: seq<nat>)
    requires EarlyTurnGraph(g) && c == [0, 1, 4, 0]
    ensures Cycle(g, c) && 1 in c && 2 !in c && !CycleEquivalent(g, 1, 2)
  {
    assert c[1] == 1;
  }

  lemma EarlyTurnRecorded(p: Program)
    requires WellFormed(p) && |p| == 6 && EarlyTurnGraph(LocalGraph(p)) && NontrivialEntry(p, 1)
    requires forall m: nat, h: nat :: BackEdge(p, m, h) <==> m == 4 && h == 0
    ensures RegionExit(p, 1) == Some(2)
  {
    EarlyTurnExits(p);
    EarlyTurnSameLoops(p);
    EarlyTurnRegion(p);
  }

  /** A region is recorded although going round its loop early passes the entry and misses the exit. */
  lemma EarlyTurnMissesExit(p: Program, c: seq<nat>)
    requires p == [Plain, Goto(4, false), Goto(5, false), Plain, Goto(0, true), EndFunction] && c == [0, 1, 4, 0]
    ensures WellFormed(p) && CyclesAreSimple(p) && BackwardsEdgesAreBackEdges(p)
    ensures RegionExit(p, 1) == Some(2)
    ensures Cycle(LocalGraph(p), c) && 1 in c && 2 !in c && !CycleEquivalent(LocalGraph(p), 1, 2)
  {
    EarlyTurnFacts(p);
    EarlyTurnIsSimple(p);
    EarlyTurnRecorded(p);
    EarlyTurnCycle(LocalGraph(p), c);
  }
}
