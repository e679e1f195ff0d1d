/**
 Lexical loops: back edges whose loop stays between head and tail in program order. They
 are found without dominators; when they are natural loops is proved below.
 */
module LexicalLoops {
  import opened Cfg
  import opened Dominance
  import opened GotoProgram
  import opened NaturalLoops

  /** No instruction of the loop lies outside the lexical region of the back edge. */
  ghost predicate Bounded(g: Graph, tail: nat, head: nat) {
    forall q: nat :: InLoop(g, tail, head, q) ==> head <= q <= tail
  }

  /** A backwards goto whose loop stays in its lexical region. */
  ghost predicate LexicalEdge(p: Program, tail: nat, head: nat)
    requires WellFormed(p)
  {
    BackGoto(p, tail, head) && Bounded(FlowGraph(p), tail, head)
  }

  /** The first lexical back edge of the head, in program order. */
  ghost predicate FirstLexicalEdge(p: Program, tail: nat, head: nat)
    requires WellFormed(p)
  {
    LexicalEdge(p, tail, head) && forall t: nat :: t < tail ==> !LexicalEdge(p, t, head)
  }

  ghost predicate LexicalLoopsBefore(p: Program, k: nat, loopMap: map<nat, set<nat>>)
    requires WellFormed(p)
  {
    && (forall n: nat :: n in loopMap <==> exists t: nat :: t < k && LexicalEdge(p, t, n))
    && (forall n: nat, t: nat :: n in loopMap && t < k && FirstLexicalEdge(p, t, n) ==>
      forall q: nat :: q in loopMap[n] <==> InLoop(FlowGraph(p), t, n, q))
  }

  /** Every backwards goto from before `k` is lexical, and no two share a head. */
  ghost predicate AllLexicalBefore(p: Program, k: nat)
    requires WellFormed(p)
  {
    && (forall t: nat, n: nat :: t < k && BackGoto(p, t, n) ==> LexicalEdge(p, t, n))
    && (forall t: nat, u: nat, n: nat :: t < u < k && BackGoto(p, t, n) ==> !BackGoto(p, u, n))
  }

  // --- lexical loops and natural loops ---------------------------------------------------

  /** The bounds check rules out every way into the loop that misses its head. */
  lemma HeadDominatesTail(p: Program, tail: nat, head: nat)
    requires WellFormed(p) && LexicalEdge(p, tail, head)
    ensures Dominates(FlowGraph(p), ENTRY, head, tail)
  {
    var g := FlowGraph(p);
    forall path: seq<nat> | RootedPath(g, ENTRY, tail, path)
      ensures head in path
    {
      if head !in path {
        assert PathBetween(g, 0, tail, path);
        assert InLoop(g, tail, head, 0);
      }
    }
  }

  /** A path that no thread start is needed for is a path of both graphs. */
  lemma LocalPathFlows(p: Program, path: seq<nat>)
    requires WellFormed(p) && IsPath(LocalGraph(p), path)
    ensures IsPath(FlowGraph(p), path)
  {
    GraphsAgree(p);
  }

  /** A reachable tail that passes the bounds check makes a back edge. */
  lemma LexicalEdgeIsBackEdge(p: Program, tail: nat, head: nat)
    requires WellFormed(p) && LexicalEdge(p, tail, head) && Reachable(LocalGraph(p), ENTRY, tail)
    ensures BackEdge(p, tail, head)
  {
    HeadDominatesTail(p, tail, head);
    forall path: seq<nat> | RootedPath(LocalGraph(p), ENTRY, tail, path)
      ensures head in path
    {
      LocalPathFlows(p, path);
      assert RootedPath(FlowGraph(p), ENTRY, tail, path);
    }
  }

  /** An instruction after the head, up to the tail, that starts a thread inside the loop. */
  ghost predicate StartsInLoop(p: Program, tail: nat, head: nat, s: nat)
    requires WellFormed(p)
  {
    && head < s <= tail && s < |p| && p[s].StartThread?
    && p[s].target != head && InLoop(FlowGraph(p), tail, head, p[s].target)
  }

  /** What starts a thread in the loop also gets to the tail by itself. */
  ghost predicate ThreadsStayIn(p: Program, tail: nat, head: nat)
    requires WellFormed(p)
  {
    forall s: nat :: StartsInLoop(p, tail, head, s) ==> InLoop(LocalGraph(p), tail, head, s)
  }

  lemma LocalLoopFlows(p: Program, tail: nat, head: nat, q: nat)
    requires WellFormed(p) && InLoop(LocalGraph(p), tail, head, q)
    ensures InLoop(FlowGraph(p), tail, head, q)
  {
    if q != head {
      var path: seq<nat> :| PathBetween(LocalGraph(p), q, tail, path) && head !in path;
      LocalPathFlows(p, path);
      assert PathBetween(FlowGraph(p), q, tail, path);
    }
  }

  /** Backwards along a path to the tail, a step at a time. */
  lemma {:induction false} FlowLoopIsLocal(p: Program, tail: nat, head: nat, path: seq<nat>)
    requires WellFormed(p) && Bounded(FlowGraph(p), tail, head) && ThreadsStayIn(p, tail, head)
    requires IsPath(FlowGraph(p), path) && Last(path) == tail && head !in path
    ensures ReachesAvoiding(LocalGraph(p), path[0], tail, head)
    decreases |path|
  {
    var g, local := FlowGraph(p), LocalGraph(p);
    if |path| == 1 {
      assert PathBetween(local, tail, tail, path);
    } else {
      var a, b := path[0], path[1];
      assert g.Edge(a, b);
      PathSlice(g, path, 1, |path|);
      FlowLoopIsLocal(p, tail, head, path[1..]);
      if local.Edge(a, b) {
        ExtendBackwards(local, tail, head, b, a);
      } else {
        GraphsAgree(p);
        assert PathBetween(g, a, tail, path) && InLoop(g, tail, head, a);
        assert PathBetween(g, b, tail, path[1..]) && InLoop(g, tail, head, b);
        assert StartsInLoop(p, tail, head, a);
      }
    }
  }

  lemma StarterInLoop(p: Program, tail: nat, head: nat, s: nat)
    requires WellFormed(p) && StartsInLoop(p, tail, head, s)
    ensures InLoop(FlowGraph(p), tail, head, s)
  {
    assert FlowGraph(p).Edge(s, p[s].target);
    ExtendBackwards(FlowGraph(p), tail, head, p[s].target, s);
  }

  /** The lexical loop of an edge is its natural loop exactly if the threads started in between stay in. */
  lemma SameLoopExactly(p: Program, tail: nat, head: nat)
    requires WellFormed(p) && LexicalEdge(p, tail, head)
    ensures forall q: nat :: InLoop(LocalGraph(p), tail, head, q) ==> InLoop(FlowGraph(p), tail, head, q)
    ensures (forall q: nat :: InLoop(FlowGraph(p), tail, head, q) ==> InLoop(LocalGraph(p), tail, head, q)) <==>
      ThreadsStayIn(p, tail, head)
  {
    var g, local := FlowGraph(p), LocalGraph(p);
    forall q: nat | InLoop(local, tail, head, q)
      ensures InLoop(g, tail, head, q)
    {
      LocalLoopFlows(p, tail, head, q);
    }
    if ThreadsStayIn(p, tail, head) {
      forall q: nat | InLoop(g, tail, head, q)
        ensures InLoop(local, tail, head, q)
      {
        if q != head {
          var path: seq<nat> :| PathBetween(g, q, tail, path) && head !in path;
          FlowLoopIsLocal(p, tail, head, path);
        }
      }
    }
    forall s: nat | StartsInLoop(p, tail, head, s)
      ensures InLoop(g, tail, head, s)
    {
      StarterInLoop(p, tail, head, s);
    }
  }

  /** The loop recorded for a head lies in its natural loop, and is that if the head has no other back edge. */
  lemma RecordedLoopIsNatural(p: Program, lexical: map<nat, set<nat>>, natural: map<nat, set<nat>>,
                              tail: nat, head: nat)
    requires WellFormed(p) && LexicalLoopsBefore(p, |p|, lexical) && ExactLoops(p, natural)
    requires FirstLexicalEdge(p, tail, head) && Reachable(LocalGraph(p), ENTRY, tail)
    ensures head in lexical && head in natural
    ensures lexical[head] <= natural[head] || !ThreadsStayIn(p, tail, head)
    ensures (forall u: nat :: BackEdge(p, u, head) ==> u == tail) ==>
      (lexical[head] == natural[head] <==> ThreadsStayIn(p, tail, head))
  {
    LexicalEdgeIsBackEdge(p, tail, head);
    SameLoopExactly(p, tail, head);
    assert forall q: nat :: q in lexical[head] <==> InLoop(FlowGraph(p), tail, head, q);
    assert forall q: nat :: q in natural[head] <==> Member(p, head, q);
  }

  /** For a program in lexical loop form, both analyses agree exactly if all tails are reachable and threads stay in. */
  lemma LexicalFormIsNaturalExactly(p: Program, lexical: map<nat, set<nat>>, natural: map<nat, set<nat>>)
    requires WellFormed(p) && AllLexicalBefore(p, |p|)
    requires LexicalLoopsBefore(p, |p|, lexical) && ExactLoops(p, natural)
    ensures lexical == natural <==> forall t: nat, n: nat :: BackGoto(p, t, n) ==>
      Reachable(LocalGraph(p), ENTRY, t) && ThreadsStayIn(p, t, n)
  {
    forall t: nat, n: nat | BackGoto(p, t, n)
      ensures n in lexical && FirstLexicalEdge(p, t, n)
      ensures n in natural <==> Reachable(LocalGraph(p), ENTRY, t)
      ensures n in natural ==> (lexical[n] == natural[n] <==> ThreadsStayIn(p, t, n))
    {
      OneLoopIsNaturalExactly(p, lexical, natural, t, n);
    }
    forall n: nat | n in natural
      ensures exists t: nat :: BackGoto(p, t, n)
    {
      assert IsHeader(p, n);
    }
    if forall t: nat, n: nat :: BackGoto(p, t, n) ==> Reachable(LocalGraph(p), ENTRY, t) && ThreadsStayIn(p, t, n) {
      forall n: nat
        ensures n in lexical <==> n in natural
        ensures n in lexical ==> lexical[n] == natural[n]
      {
        if n in lexical {
          var t: nat :| t < |p| && LexicalEdge(p, t, n);
        }
      }
      assert lexical == natural;
    }
  }

  lemma OneLoopIsNaturalExactly(p: Program, lexical: map<nat, set<nat>>, natural: map<nat, set<nat>>,
                                tail: nat, head: nat)
    requires WellFormed(p) && AllLexicalBefore(p, |p|) && BackGoto(p, tail, head)
    requires LexicalLoopsBefore(p, |p|, lexical) && ExactLoops(p, natural)
    ensures head in lexical && FirstLexicalEdge(p, tail, head)
    ensures head in natural <==> Reachable(LocalGraph(p), ENTRY, tail)
    ensures head in natural ==> (lexical[head] == natural[head] <==> ThreadsStayIn(p, tail, head))
  {
    assert LexicalEdge(p, tail, head);
    forall u: nat | BackGoto(p, u, head)
      ensures u == tail
    {
      assert u < |p|;
    }
    if Reachable(LocalGraph(p), ENTRY, tail) {
      RecordedLoopIsNatural(p, lexical, natural, tail, head);
    } else {
      assert forall m: nat :: BackEdge(p, m, head) ==> m == tail;
      assert !IsHeader(p, head);
    }
  }

  lemma ThreadProgramLocal(p: Program, a: nat, b: nat)
    requires p == [Plain, Goto(4, false), StartThread(4), Goto(5, true), Goto(0, false), EndFunction]
    ensures WellFormed(p)
    ensures LocalGraph(p).Edge(a, b) <==> (a, b) in {(0, 1), (1, 2), (1, 4), (2, 3), (3, 5), (4, 0), (4, 5)}
  {
    assert WellFormed(p);
    if a < |p| {
      assert LocalSuccessors(p, a) ==
        if a == 0 then [1] else if a == 1 then [2, 4] else if a == 2 then [3] else if a == 3 then [5]
        else if a == 4 then [5, 0] else [];
    }
  }

  lemma ThreadProgramFlow(p: Program, a: nat, b: nat)
    requires p == [Plain, Goto(4, false), StartThread(4), Goto(5, true), Goto(0, false), EndFunction]
    ensures WellFormed(p)
    ensures FlowGraph(p).Edge(a, b) <==> (a, b) in {(0, 1), (1, 2), (1, 4), (2, 3), (2, 4), (3, 5), (4, 0), (4, 5)}
  {
    assert WellFormed(p);
    if a < |p| {
      assert Successors(p, a) ==
        if a == 0 then [1] else if a == 1 then [4, 2] else if a == 2 then [4, 3] else if a == 3 then [5]
        else if a == 4 then [0, 5] else [];
    }
  }

  lemma {:induction false} PathStays(g: Graph, inside: set<nat>, path: seq<nat>)
    requires forall a: nat, b: nat :: a in inside && g.Edge(a, b) ==> b in inside
    requires IsPath(g, path) && path[0] in inside
    ensures Last(path) in inside
    decreases |path|
  {
    if |path| > 1 {
      assert g.Edge(path[0], path[1]);
      PathSlice(g, path, 1, |path|);
      PathStays(g, inside, path[1..]);
    }
  }

  lemma WidenedLoop(g: Graph)
    requires g.Edge(2, 4) && forall a: nat, b: nat :: g.Edge(a, b) ==> a < 5
    ensures InLoop(g, 4, 0, 2) && Bounded(g, 4, 0)
  {
    assert PathBetween(g, 2, 4, [2, 4]) && 0 !in [2, 4];
    forall q: nat | InLoop(g, 4, 0, q)
      ensures q <= 4
    {
      if q != 0 {
        var path: seq<nat> :| PathBetween(g, q, 4, path) && 0 !in path;
        if |path| > 1 {
          assert g.Edge(path[0], path[1]);
        }
      }
    }
  }

  lemma ThreadProgramLoops(p: Program)
    requires p == [Plain, Goto(4, false), StartThread(4), Goto(5, true), Goto(0, false), EndFunction]
    ensures WellFormed(p)
    ensures InLoop(FlowGraph(p), 4, 0, 2) && Bounded(FlowGraph(p), 4, 0)
  {
    assert WellFormed(p);
    forall a: nat, b: nat
      ensures FlowGraph(p).Edge(a, b) ==> a < 5
    {
      ThreadProgramFlow(p, a, b);
    }
    ThreadProgramFlow(p, 2, 4);
    WidenedLoop(FlowGraph(p));
  }

  /** Locally, only 3 and 5 can be got to from 2. */
  lemma ThreadProgramStaysOut(p: Program)
    requires p == [Plain, Goto(4, false), StartThread(4), Goto(5, true), Goto(0, false), EndFunction]
    ensures WellFormed(p) && !InLoop(LocalGraph(p), 4, 0, 2)
  {
    assert WellFormed(p);
    var g := LocalGraph(p);
    forall a: nat, b: nat | a in {2, 3, 5} && g.Edge(a, b)
      ensures b in {2, 3, 5}
    {
      ThreadProgramLocal(p, a, b);
    }
    forall path: seq<nat> | IsPath(g, path) && path[0] == 2
      ensures Last(path) != 4
    {
      PathStays(g, {2, 3, 5}, path);
    }
  }

  /** A thread start that does not come back itself is in the lexical loop of 4 and 0 only. */
  lemma ThreadStartWidensLoop(p: Program)
    requires p == [Plain, Goto(4, false), StartThread(4), Goto(5, true), Goto(0, false), EndFunction]
    ensures WellFormed(p) && LexicalEdge(p, 4, 0) && Reachable(LocalGraph(p), ENTRY, 4)
    ensures InLoop(FlowGraph(p), 4, 0, 2) && !InLoop(LocalGraph(p), 4, 0, 2)
  {
    ThreadProgramLoops(p);
    ThreadProgramStaysOut(p);
    ThreadProgramLocal(p, 0, 1);
    ThreadProgramLocal(p, 1, 4);
    assert RootedPath(LocalGraph(p), ENTRY, 4, [0, 1, 4]);
  }

  // --- the computation --------------------------------------------------------------------

  /** Takes over the predecessors unless one of them lies outside [lo, hi]. */
  method PushWithin(edges: seq<nat>, lo: nat, hi: nat, loop: set<nat>, stack: seq<nat>)
    returns (ok: bool, loop': set<nat>, stack': seq<nat>)
    ensures ok <==> forall q :: q in edges ==> lo <= q <= hi
    ensures ok ==> forall q :: q in loop' <==> q in loop || q in edges
    ensures ok ==> forall q :: q in stack' <==> q in stack || (q in edges && q !in loop)
    ensures ok && loop' == loop ==> stack' == stack
  {
    ok, loop', stack' := true, loop, stack;
    for i := 0 to |edges|
      invariant ok
      invariant forall q :: q in edges[..i] ==> lo <= q <= hi
      invariant forall q :: q in loop' <==> q in loop || q in edges[..i]
      invariant forall q :: q in stack' <==> q in stack || (q in edges[..i] && q !in loop)
      invariant loop' == loop ==> stack' == stack
    {
      assert edges[..i + 1] == edges[..i] + [edges[i]];
      assert edges[i] in edges;
      if edges[i] > hi || edges[i] < lo {
        ok := false;
        return;
      }
      if edges[i] !in loop' {
        loop' := loop' + {edges[i]};
        stack' := stack' + [edges[i]];
      }
    }
    assert edges[..|edges|] == edges;
  }

  /** Collects the loop of the back edge, giving up at the first instruction outside its region. */
  method WalkWithin(g: Graph, tail: nat, head: nat) returns (ok: bool, loop: set<nat>)
    requires g.Valid() && head <= tail < |g.out|
    ensures ok <==> Bounded(g, tail, head)
    ensures ok ==> forall q: nat :: q in loop <==> InLoop(g, tail, head, q)
  {
    ok, loop := true, {head, tail};
    var stack: seq<nat> := if head != tail then [tail] else [];
    assert PathBetween(g, tail, tail, [tail]);
    while stack != []
      invariant Walking(g, tail, head, {}, loop, stack)
      invariant forall q :: q in loop ==> head <= q <= tail
      decreases Range(|g.out|) - loop, |stack|
    {
      var top, rest := stack[|stack| - 1], stack[..|stack| - 1];
      assert stack == rest + [top] && top in stack;
      ghost var before := loop;
      PredecessorsJoin(g, tail, head, top, g.into[top]);
      ok, loop, stack := PushWithin(g.into[top], head, tail, loop, rest);
      if !ok {
        ghost var q :| q in g.into[top] && !(head <= q <= tail);
        assert InLoop(g, tail, head, q);
        return;
      }
      WalkingOn(g, tail, head, {}, before, rest, top, loop, stack);
    }
    WalkingDone(g, tail, head, {}, loop);
    ok := true;
  }

  class LexicalLoopAnalysis {
    const program: Program
    const graph: Graph
    var loopMap: map<nat, set<nat>>
    var allInLexicalLoopForm: bool

    constructor (program: Program)
      requires WellFormed(program)
      ensures this.program == program && graph == FlowGraph(program)
      ensures loopMap == map[] && !allInLexicalLoopForm
    {
      this.program := program;
      this.graph := FlowGraph(program);
      loopMap := map[];
      allInLexicalLoopForm := false;
    }

    method Compute()
      requires WellFormed(program) && graph == FlowGraph(program) && loopMap == map[]
      modifies this
      ensures LexicalLoopsBefore(program, |program|, loopMap)
      ensures allInLexicalLoopForm <==> AllLexicalBefore(program, |program|)
    {
      allInLexicalLoopForm := true;
      for t := 0 to |program|
        invariant LexicalLoopsBefore(program, t, loopMap)
        invariant allInLexicalLoopForm <==> AllLexicalBefore(program, t)
      {
        if program[t].Goto? && program[t].target <= t {
          ghost var before, formBefore := loopMap, allInLexicalLoopForm;
          var ok := ComputeLexicalLoop(t, program[t].target);
          if !ok {
            allInLexicalLoopForm := false;
          }
          AfterBackGoto(program, t, program[t].target, before, loopMap);
          FormAfterBackGoto(program, t, program[t].target, before);
        } else {
          assert forall n: nat :: !BackGoto(program, t, n);
          assert forall n: nat :: !LexicalEdge(program, t, n);
          AfterOther(program, t, loopMap);
        }
      }
    }

    /** Records the loop of a back edge unless it strays or its head has a loop already. */
    method ComputeLexicalLoop(tail: nat, head: nat) returns (ok: bool)
      requires WellFormed(program) && graph == FlowGraph(program) && head <= tail < |program|
      modifies this`loopMap
      ensures ok <==> Bounded(graph, tail, head) && head !in old(loopMap)
      ensures !ok ==> loopMap == old(loopMap)
      ensures ok ==> loopMap.Keys == old(loopMap).Keys + {head}
      ensures forall n :: n in old(loopMap) ==> n in loopMap && loopMap[n] == old(loopMap)[n]
      ensures ok ==> forall q: nat :: q in loopMap[head] <==> InLoop(graph, tail, head, q)
    {
      var loop;
      ok, loop := WalkWithin(graph, tail, head);
      if !ok {
        return;
      }
      ok := head !in loopMap;
      if ok {
        loopMap := loopMap[head := loop];
      }
    }
  }

  lemma AfterBackGoto(p: Program, t: nat, n: nat, before: map<nat, set<nat>>, after: map<nat, set<nat>>)
    requires WellFormed(p) && BackGoto(p, t, n) && LexicalLoopsBefore(p, t, before)
    requires if LexicalEdge(p, t, n) && n !in before
      then after.Keys == before.Keys + {n} && forall q: nat :: q in after[n] <==> InLoop(FlowGraph(p), t, n, q)
      else after == before
    requires forall k :: k in before ==> k in after && after[k] == before[k]
    ensures LexicalLoopsBefore(p, t + 1, after)
  {
    forall h: nat
      ensures h in after <==> exists u: nat :: u < t + 1 && LexicalEdge(p, u, h)
    {
      if h in before {
        var u: nat :| u < t && LexicalEdge(p, u, h);
      }
    }
    forall h: nat, u: nat | h in after && u < t + 1 && FirstLexicalEdge(p, u, h)
      ensures forall q: nat :: q in after[h] <==> InLoop(FlowGraph(p), u, h, q)
    {
      if u == t {
        assert h == n;
      } else {
        assert h in before;
      }
    }
  }

  lemma AfterOther(p: Program, t: nat, loopMap: map<nat, set<nat>>)
    requires WellFormed(p) && LexicalLoopsBefore(p, t, loopMap)
    requires forall n: nat :: !LexicalEdge(p, t, n)
    ensures LexicalLoopsBefore(p, t + 1, loopMap)
  {
  }

  lemma FormAfterBackGoto(p: Program, t: nat, n: nat, before: map<nat, set<nat>>)
    requires WellFormed(p) && BackGoto(p, t, n) && LexicalLoopsBefore(p, t, before)
    ensures AllLexicalBefore(p, t + 1) <==>
      AllLexicalBefore(p, t) && LexicalEdge(p, t, n) && n !in before
  {
    if AllLexicalBefore(p, t) && LexicalEdge(p, t, n) && n !in before {
      forall u: nat, v: nat, h: nat | u < v < t + 1 && BackGoto(p, u, h)
        ensures !BackGoto(p, v, h)
      {
        assert LexicalEdge(p, u, h);
      }
    }
  }
}
