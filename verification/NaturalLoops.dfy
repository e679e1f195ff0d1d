/**
 Natural loops: for each header, the instructions that can reach one of its back edges
 without passing the header again.
 */
module NaturalLoops {
  import opened Cfg
  import opened Dominance
  import opened Dominators
  import opened GotoProgram

  const ENTRY: set<nat> := {0}

  /** A backwards goto from `m` to an `n` that dominates it. */
  ghost predicate BackEdge(p: Program, m: nat, n: nat)
    requires WellFormed(p)
  {
    && BackGoto(p, m, n)
    && Reachable(LocalGraph(p), ENTRY, m)
    && Dominates(LocalGraph(p), ENTRY, n, m)
  }

  /** `q` belongs to the loop of one back edge from `m` to `n`. */
  ghost predicate InLoop(g: Graph, m: nat, n: nat, q: nat) {
    q == n || ReachesAvoiding(g, q, m, n)
  }

  ghost predicate IsHeader(p: Program, n: nat)
    requires WellFormed(p)
  {
    exists m: nat :: BackEdge(p, m, n)
  }

  /** `q` belongs to the loop of some back edge to `n`. */
  ghost predicate Member(p: Program, n: nat, q: nat)
    requires WellFormed(p)
  {
    exists m: nat :: BackEdge(p, m, n) && InLoop(LocalGraph(p), m, n, q)
  }

  /** The same, counting only the back edges that leave from before `k`. */
  ghost predicate HeaderBefore(p: Program, k: nat, n: nat)
    requires WellFormed(p)
  {
    exists m: nat :: m < k && BackEdge(p, m, n)
  }

  ghost predicate MemberBefore(p: Program, k: nat, n: nat, q: nat)
    requires WellFormed(p)
  {
    exists m: nat :: m < k && BackEdge(p, m, n) && InLoop(LocalGraph(p), m, n, q)
  }

  ghost predicate LoopsBefore(p: Program, k: nat, loopMap: map<nat, set<nat>>)
    requires WellFormed(p)
  {
    && (forall n: nat :: n in loopMap <==> HeaderBefore(p, k, n))
    && (forall n: nat, q: nat :: n in loopMap ==> (q in loopMap[n] <==> MemberBefore(p, k, n, q)))
  }

  /** What the analysis promises of its loop map. */
  ghost predicate ExactLoops(p: Program, loopMap: map<nat, set<nat>>)
    requires WellFormed(p)
  {
    && (forall n: nat :: n in loopMap <==> IsHeader(p, n))
    && (forall n: nat, q: nat :: n in loopMap ==> (q in loopMap[n] <==> Member(p, n, q)))
  }

  // --- what belonging to a loop means ---------------------------------------------------

  /** The only way into a loop from outside is through its header. */
  lemma OnlyEntryIsHeader(p: Program, n: nat, a: nat, q: nat)
    requires WellFormed(p) && Member(p, n, q) && q != n && LocalGraph(p).Edge(a, q)
    ensures Member(p, n, a)
  {
    var g := LocalGraph(p);
    var m: nat :| BackEdge(p, m, n) && InLoop(g, m, n, q);
    if a != n {
      var path: seq<nat> :| PathBetween(g, q, m, path) && n !in path;
      PathPrepend(g, a, path);
      assert PathBetween(g, a, m, [a] + path);
    }
  }

  /** The header dominates every reachable instruction of its loop. */
  lemma HeaderDominatesMembers(p: Program, n: nat, q: nat)
    requires WellFormed(p) && Member(p, n, q) && Reachable(LocalGraph(p), ENTRY, q)
    ensures Dominates(LocalGraph(p), ENTRY, n, q)
  {
    var g := LocalGraph(p);
    var m: nat :| BackEdge(p, m, n) && InLoop(g, m, n, q);
    if q != n {
      var tail: seq<nat> :| PathBetween(g, q, m, tail) && n !in tail;
      forall path: seq<nat> | RootedPath(g, ENTRY, q, path)
        ensures n in path
      {
        PathJoin(g, path, tail);
        assert RootedPath(g, ENTRY, m, Join(path, tail));
      }
    }
  }

  lemma HeaderReachable(p: Program, n: nat)
    requires WellFormed(p) && IsHeader(p, n)
    ensures Reachable(LocalGraph(p), ENTRY, n)
  {
    var m: nat :| BackEdge(p, m, n);
    DominatorReachable(LocalGraph(p), ENTRY, n, m);
  }

  /** A path from a header to a node it strictly dominates leaves the header for good. */
  lemma PathPastDominator(g: Graph, roots: set<nat>, a: nat, b: nat, q: nat) returns (path: seq<nat>)
    requires Reachable(g, roots, q) && a != b
    requires Dominates(g, roots, a, b) && Dominates(g, roots, b, q)
    ensures PathBetween(g, b, q, path) && a !in path
  {
    var full: seq<nat> :| RootedPath(g, roots, q, full);
    DominatesTransitive(g, roots, a, b, q);
    var i, j := LastIndex(full, a), LastIndex(full, b);
    if j < i {
      EarlierDominates(g, roots, b, a, q, full, j, i);
      ReachableOnPath(g, roots, q, full, j);
      DominatesAntisymmetric(g, roots, a, b);
    }
    PathSlice(g, full, j, |full|);
    path := full[j..];
    assert forall k :: 0 <= k < |path| && k + j > i ==> path[k] == full[i + 1..][k + j - i - 1];
  }

  /** A loop contains the header of any other loop it shares a reachable instruction with and dominates. */
  lemma InnerHeaderInOuter(p: Program, outer: nat, inner: nat, q: nat)
    requires WellFormed(p) && outer != inner
    requires Member(p, outer, q) && Member(p, inner, q) && Reachable(LocalGraph(p), ENTRY, q)
    requires Dominates(LocalGraph(p), ENTRY, outer, inner)
    ensures Member(p, outer, inner)
  {
    var g := LocalGraph(p);
    HeaderDominatesMembers(p, inner, q);
    var first := PathPastDominator(g, ENTRY, outer, inner, q);
    var m: nat :| BackEdge(p, m, outer) && InLoop(g, m, outer, q);
    if q != outer {
      var tail: seq<nat> :| PathBetween(g, q, m, tail) && outer !in tail;
      PathJoin(g, first, tail);
      assert PathBetween(g, inner, m, Join(first, tail));
    }
  }

  /** Loops with different headers that share a reachable instruction are nested. */
  lemma LoopsNest(p: Program, outer: nat, inner: nat, q: nat)
    requires WellFormed(p) && outer != inner
    requires Member(p, outer, q) && Member(p, inner, q) && Reachable(LocalGraph(p), ENTRY, q)
    requires Dominates(LocalGraph(p), ENTRY, outer, inner)
    ensures forall x :: Member(p, inner, x) ==> Member(p, outer, x)
    ensures !Member(p, inner, outer)
  {
    var g := LocalGraph(p);
    InnerHeaderInOuter(p, outer, inner, q);
    HeaderReachable(p, inner);
    DominatorReachable(g, ENTRY, outer, inner);
    if Member(p, inner, outer) {
      HeaderDominatesMembers(p, inner, outer);
      DominatesAntisymmetric(g, ENTRY, outer, inner);
    }
    forall x | Member(p, inner, x)
      ensures Member(p, outer, x)
    {
      InnerMemberInOuter(p, outer, inner, x);
    }
  }

  /** Of two loops that share a reachable instruction, one lies in the other. */
  lemma OneLoopInOther(p: Program, h: nat, k: nat, q: nat)
    requires WellFormed(p) && Member(p, h, q) && Member(p, k, q) && Reachable(LocalGraph(p), ENTRY, q)
    ensures (forall x :: Member(p, h, x) ==> Member(p, k, x)) || (forall x :: Member(p, k, x) ==> Member(p, h, x))
  {
    HeaderDominatesMembers(p, h, q);
    HeaderDominatesMembers(p, k, q);
    DominatorsFormChain(LocalGraph(p), ENTRY, h, k, q);
    if h != k {
      if Dominates(LocalGraph(p), ENTRY, h, k) {
        LoopsNest(p, h, k, q);
      } else {
        LoopsNest(p, k, h, q);
      }
    }
  }

  lemma InnerMemberInOuter(p: Program, outer: nat, inner: nat, x: nat)
    requires WellFormed(p) && outer != inner
    requires Member(p, outer, inner) && !Member(p, inner, outer)
    requires Member(p, inner, x)
    ensures Member(p, outer, x)
  {
    var g := LocalGraph(p);
    var m: nat :| BackEdge(p, m, outer) && InLoop(g, m, outer, inner);
    var k: nat :| BackEdge(p, k, inner) && InLoop(g, k, inner, x);
    assert !InLoop(g, k, inner, outer);
    if x != inner {
      DetourThroughHeader(g, x, k, inner, m, outer);
      assert InLoop(g, m, outer, x);
    }
  }

  /** From `x` to the tail `k`, over its back edge to `inner`, and on to `m`, always clear of `outer`. */
  lemma DetourThroughHeader(g: Graph, x: nat, k: nat, inner: nat, m: nat, outer: nat)
    requires ReachesAvoiding(g, x, k, inner) && g.Edge(k, inner)
    requires ReachesAvoiding(g, inner, m, outer) && !ReachesAvoiding(g, outer, k, inner)
    ensures ReachesAvoiding(g, x, m, outer)
  {
    var toBack: seq<nat> :| PathBetween(g, inner, m, toBack) && outer !in toBack;
    var path: seq<nat> :| PathBetween(g, x, k, path) && inner !in path;
    if outer in path {
      SuffixAvoids(g, path, outer, k, inner);
    }
    PathExtend(g, path, inner);
    var whole := path + [inner];
    PathJoin(g, whole, toBack);
    assert inner in toBack;
    assert PathBetween(g, x, m, Join(whole, toBack));
  }

  lemma SuffixAvoids(g: Graph, path: seq<nat>, x: nat, b: nat, avoid: nat)
    requires IsPath(g, path) && Last(path) == b && avoid !in path && x in path
    ensures ReachesAvoiding(g, x, b, avoid)
  {
    var i :| 0 <= i < |path| && path[i] == x;
    PathSlice(g, path, i, |path|);
    assert PathBetween(g, x, b, path[i..]);
  }

  // --- the computation ------------------------------------------------------------------

  /** Every instruction but the header has all its predecessors in the set, unless still on the stack. */
  ghost predicate Closed(g: Graph, n: nat, loop: set<nat>, stack: seq<nat>) {
    forall a: nat, q :: q in loop && q != n && q !in stack && g.Edge(a, q) ==> a in loop
  }

  lemma {:induction false} ClosedHasPath(g: Graph, n: nat, loop: set<nat>, path: seq<nat>)
    requires Closed(g, n, loop, []) && IsPath(g, path) && n !in path && Last(path) in loop
    ensures path[0] in loop
    decreases |path|
  {
    if |path| > 1 {
      PathSlice(g, path, 1, |path|);
      assert g.Edge(path[0], path[1]);
      ClosedHasPath(g, n, loop, path[1..]);
    }
  }

  lemma LoopsAreClosed(p: Program, k: nat, loopMap: map<nat, set<nat>>, n: nat)
    requires WellFormed(p) && LoopsBefore(p, k, loopMap) && n in loopMap
    ensures n in loopMap[n] && Closed(LocalGraph(p), n, loopMap[n], [])
  {
    var g := LocalGraph(p);
    assert HeaderBefore(p, k, n);
    var m0: nat :| m0 < k && BackEdge(p, m0, n);
    assert InLoop(g, m0, n, n);
    assert MemberBefore(p, k, n, n);
    forall a: nat, q | q in loopMap[n] && q != n && g.Edge(a, q)
      ensures a in loopMap[n]
    {
      var m: nat :| m < k && BackEdge(p, m, n) && InLoop(g, m, n, q);
      if a != n {
        ExtendBackwards(g, m, n, q, a);
      }
      assert InLoop(g, m, n, a);
      assert MemberBefore(p, k, n, a);
    }
  }

  lemma LoopsAfterBackEdge(p: Program, m: nat, n: nat, before: map<nat, set<nat>>, after: map<nat, set<nat>>)
    requires WellFormed(p) && BackEdge(p, m, n) && LoopsBefore(p, m, before)
    requires after.Keys == before.Keys + {n}
    requires forall k :: k in before && k != n ==> after[k] == before[k]
    requires forall q: nat :: q in after[n] <==> (n in before && q in before[n]) || InLoop(LocalGraph(p), m, n, q)
    ensures LoopsBefore(p, m + 1, after)
  {
    var g := LocalGraph(p);
    forall h: nat
      ensures h in after <==> HeaderBefore(p, m + 1, h)
    {
      assert h in before <==> HeaderBefore(p, m, h);
      assert HeaderBefore(p, m + 1, h) <==> HeaderBefore(p, m, h) || BackEdge(p, m, h);
    }
    forall h: nat, q: nat | h in after
      ensures q in after[h] <==> MemberBefore(p, m + 1, h, q)
    {
      assert MemberBefore(p, m + 1, h, q) <==> MemberBefore(p, m, h, q) || (BackEdge(p, m, h) && InLoop(g, m, h, q));
      if MemberBefore(p, m, h, q) {
        var k: nat :| k < m && BackEdge(p, k, h) && InLoop(g, k, h, q);
        assert HeaderBefore(p, m, h);
      }
    }
  }

  lemma LoopsAfterOther(p: Program, m: nat, loopMap: map<nat, set<nat>>)
    requires WellFormed(p) && LoopsBefore(p, m, loopMap)
    requires forall n: nat :: !BackEdge(p, m, n)
    ensures LoopsBefore(p, m + 1, loopMap)
  {
    forall h: nat
      ensures HeaderBefore(p, m + 1, h) <==> HeaderBefore(p, m, h)
    {
    }
    forall h: nat, q: nat
      ensures MemberBefore(p, m + 1, h, q) <==> MemberBefore(p, m, h, q)
    {
    }
  }

  lemma ExtendBackwards(g: Graph, m: nat, n: nat, top: nat, q: nat)
    requires ReachesAvoiding(g, top, m, n) && g.Edge(q, top) && q != n
    ensures ReachesAvoiding(g, q, m, n)
  {
    var path: seq<nat> :| PathBetween(g, top, m, path) && n !in path;
    PathPrepend(g, q, path);
    assert PathBetween(g, q, m, [q] + path) && n !in [q] + path;
  }

  lemma PredecessorsJoin(g: Graph, m: nat, n: nat, top: nat, edges: seq<nat>)
    requires g.Valid() && top < |g.out| && edges == g.into[top]
    requires ReachesAvoiding(g, top, m, n)
    ensures forall q: nat :: q in edges <==> g.Edge(q, top)
    ensures forall q :: q in edges && q != n ==> ReachesAvoiding(g, q, m, n)
  {
    forall q | q in edges && q != n
      ensures ReachesAvoiding(g, q, m, n)
    {
      ExtendBackwards(g, m, n, top, q);
    }
  }

  /** Puts the nodes that are new to the set into it and on the stack. */
  method PushNew(edges: seq<nat>, loop: set<nat>, stack: seq<nat>) returns (loop': set<nat>, stack': seq<nat>)
    ensures forall q :: q in loop' <==> q in loop || q in edges
    ensures forall q :: q in stack' <==> q in stack || (q in edges && q !in loop)
    ensures loop' == loop ==> stack' == stack
  {
    loop', stack' := loop, stack;
    for i := 0 to |edges|
      invariant forall q :: q in loop' <==> q in loop || q in edges[..i]
      invariant forall q :: q in stack' <==> q in stack || (q in edges[..i] && q !in loop)
      invariant loop' == loop ==> stack' == stack
    {
      assert edges[..i + 1] == edges[..i] + [edges[i]];
      if edges[i] !in loop' {
        loop' := loop' + {edges[i]};
        stack' := stack' + [edges[i]];
      }
    }
    assert edges[..|edges|] == edges;
  }

  /** The walk has found only members, and misses only predecessors of what is on the stack. */
  ghost predicate Walking(g: Graph, m: nat, n: nat, known: set<nat>, loop: set<nat>, stack: seq<nat>) {
    && known + {n, m} <= loop
    && (forall q :: q in loop ==> q in known || InLoop(g, m, n, q))
    && (forall q :: q in stack ==> q < |g.out| && q != n && ReachesAvoiding(g, q, m, n))
    && Closed(g, n, loop, stack)
  }

  lemma WalkingStarts(g: Graph, m: nat, n: nat, known: set<nat>)
    requires g.Valid() && m < |g.out| && n < |g.out|
    requires known != {} ==> n in known && Closed(g, n, known, [])
    ensures Walking(g, m, n, known, known + {n, m}, if n != m then [m] else [])
  {
    assert PathBetween(g, m, m, [m]);
  }

  lemma WalkingOn(g: Graph, m: nat, n: nat, known: set<nat>, loop: set<nat>, stack: seq<nat>, top: nat,
                  loop': set<nat>, stack': seq<nat>)
    requires g.Valid() && top < |g.out| && Walking(g, m, n, known, loop, stack + [top])
    requires forall q :: q in loop' <==> q in loop || q in g.into[top]
    requires forall q :: q in stack' <==> q in stack || (q in g.into[top] && q !in loop)
    ensures Walking(g, m, n, known, loop', stack')
    ensures loop' != loop ==> Range(|g.out|) - loop' < Range(|g.out|) - loop
  {
    assert top in stack + [top];
    PredecessorsJoin(g, m, n, top, g.into[top]);
    forall q | q in stack'
      ensures q < |g.out| && q != n && ReachesAvoiding(g, q, m, n)
    {
      if q in stack {
        assert q in stack + [top];
      }
    }
    forall a: nat, q | q in loop' && q != n && q !in stack' && g.Edge(a, q)
      ensures a in loop'
    {
      assert q in loop;
      assert q != top ==> q !in stack + [top];
    }
    if loop' != loop {
      var q :| q in loop' && q !in loop;
      assert g.Edge(q, top);
      assert q in Range(|g.out|) - loop;
    }
  }

  lemma WalkingDone(g: Graph, m: nat, n: nat, known: set<nat>, loop: set<nat>)
    requires Walking(g, m, n, known, loop, [])
    ensures forall q: nat :: q in loop <==> q in known || InLoop(g, m, n, q)
  {
    forall q: nat | ReachesAvoiding(g, q, m, n)
      ensures q in loop
    {
      var path: seq<nat> :| PathBetween(g, q, m, path) && n !in path;
      ClosedHasPath(g, n, loop, path);
    }
  }

  /** Adds to `known` all instructions that reach the tail `m` without passing the header `n`. */
  method WalkBackwards(g: Graph, m: nat, n: nat, known: set<nat>) returns (loop: set<nat>)
    requires g.Valid() && m < |g.out| && n < |g.out|
    requires known != {} ==> n in known && Closed(g, n, known, [])
    ensures forall q: nat :: q in loop <==> q in known || InLoop(g, m, n, q)
    ensures Closed(g, n, loop, [])
  {
    loop := known + {n, m};
    var stack: seq<nat> := if n != m then [m] else [];
    WalkingStarts(g, m, n, known);
    while stack != []
      invariant Walking(g, m, n, known, loop, stack)
      decreases Range(|g.out|) - loop, |stack|
    {
      var top, rest := stack[|stack| - 1], stack[..|stack| - 1];
      assert stack == rest + [top] && top in stack;
      ghost var before := loop;
      loop, stack := PushNew(g.into[top], loop, rest);
      WalkingOn(g, m, n, known, before, rest, top, loop, stack);
    }
    WalkingDone(g, m, n, known, loop);
  }

  class NaturalLoopAnalysis {
    const program: Program
    const dominators: CfgDominators
    var loopMap: map<nat, set<nat>>

    constructor (program: Program)
      requires WellFormed(program)
      ensures this.program == program && loopMap == map[]
      ensures fresh(dominators) && !dominators.postDom && dominators.cfg == LocalGraph(program)
      ensures dominators.dominators == seq(|program|, _ => [])
    {
      this.program := program;
      this.dominators := new CfgDominators(LocalGraph(program), false);
      loopMap := map[];
    }

    ghost predicate DominatorsKnown()
      reads this, dominators
    {
      && WellFormed(program)
      && Exact(LocalGraph(program), ENTRY, dominators.dominators)
    }

    method Compute()
      requires WellFormed(program)
      requires dominators.cfg == LocalGraph(program) && !dominators.postDom
      requires dominators.dominators == seq(|program|, _ => []) && loopMap == map[]
      modifies this, dominators
      ensures DominatorsKnown() && ExactLoops(program, loopMap)
    {
      dominators.Fixedpoint();
      for m := 0 to |program|
        invariant DominatorsKnown() && LoopsBefore(program, m, loopMap)
      {
        ProcessInstruction(m);
      }
      assert forall m: nat, n: nat :: BackEdge(program, m, n) ==> m < |program|;
    }

    /** Computes the loop of a backwards goto whose target dominates it. */
    method ProcessInstruction(m: nat)
      requires DominatorsKnown() && m < |program| && LoopsBefore(program, m, loopMap)
      requires dominators.cfg == LocalGraph(program)
      modifies this
      ensures LoopsBefore(program, m + 1, loopMap)
    {
      if program[m].Goto? && program[m].target <= m && dominators.DominatesQuery(program[m].target, m) {
        var n := program[m].target;
        assert BackEdge(program, m, n);
        if n in loopMap {
          LoopsAreClosed(program, m, loopMap, n);
        }
        ghost var before := loopMap;
        ComputeNaturalLoop(m, n);
        LoopsAfterBackEdge(program, m, n, before, loopMap);
      } else {
        assert forall n: nat :: !BackEdge(program, m, n);
        LoopsAfterOther(program, m, loopMap);
      }
    }

    /** Walks backwards from the tail `m`, adding to what is already known of the loop of `n`. */
    method ComputeNaturalLoop(m: nat, n: nat)
      requires WellFormed(program) && n <= m < |program|
      requires dominators.cfg == LocalGraph(program)
      requires n in loopMap ==> n in loopMap[n] && Closed(LocalGraph(program), n, loopMap[n], [])
      modifies this
      ensures loopMap.Keys == old(loopMap).Keys + {n}
      ensures forall k :: k in old(loopMap) && k != n ==> loopMap[k] == old(loopMap)[k]
      ensures forall q: nat :: q in loopMap[n] <==>
        (n in old(loopMap) && q in old(loopMap)[n]) || InLoop(LocalGraph(program), m, n, q)
      ensures Closed(LocalGraph(program), n, loopMap[n], [])
    {
      var loop := if n in loopMap then loopMap[n] else {};
      loop := WalkBackwards(dominators.cfg, m, n, loop);
      loopMap := loopMap[n := loop];
    }
  }
}
