/**
 Dominators and post-dominators of a control-flow graph, computed by a worklist that
 intersects ordered sets in place. An empty set means "not reached yet".
 */
module Dominators {
  import opened Cfg
  import opened Dominance
  import opened SortedSets

  /** What the computation promises of each node's stored set. */
  ghost predicate Exact(g: Graph, roots: set<nat>, doms: seq<seq<nat>>) {
    && |doms| == |g.out|
    && forall n :: 0 <= n < |doms| ==>
      && Sorted(doms[n])
      && (doms[n] != [] <==> Reachable(g, roots, n))
      && (doms[n] != [] ==> forall d :: d in doms[n] <==> Dominates(g, roots, d, n))
  }

  // --- invariants of the worklist -----------------------------------------------------

  /** Every stored set belongs to a reachable node and over-approximates its dominators. */
  ghost predicate Upper(g: Graph, roots: set<nat>, doms: seq<seq<nat>>) {
    && |doms| == |g.out|
    && forall n :: 0 <= n < |doms| ==> UpperAt(g, roots, doms[n], n)
  }

  ghost predicate UpperAt(g: Graph, roots: set<nat>, dom: seq<nat>, n: nat) {
    && Sorted(dom)
    && (n in roots ==> dom == [n])
    && (forall d :: d in dom ==> d < |g.out|)
    && (dom != [] ==> n in dom && Reachable(g, roots, n) && forall d :: Dominates(g, roots, d, n) ==> d in dom)
  }

  /** The equation of the edge from `a` to `b` holds. */
  ghost predicate Stable(doms: seq<seq<nat>>, a: nat, b: nat)
    requires a < |doms| && b < |doms|
  {
    doms[a] != [] ==> doms[b] != [] && forall d :: d in doms[b] ==> d == b || d in doms[a]
  }

  /** Every edge is stable unless its target is still queued. */
  ghost predicate Queued(g: Graph, doms: seq<seq<nat>>, work: seq<nat>)
    requires |doms| == |g.out|
  {
    forall a: nat, b: nat :: g.Edge(a, b) ==> b in work || Stable(doms, a, b)
  }

  /** Every queued node has a predecessor that has been reached. */
  ghost predicate Fed(g: Graph, doms: seq<seq<nat>>, work: seq<nat>)
    requires |doms| == |g.out|
  {
    forall b :: b in work ==> HasReachedPredecessor(g, doms, b)
  }

  ghost predicate HasReachedPredecessor(g: Graph, doms: seq<seq<nat>>, b: nat)
    requires |doms| == |g.out|
  {
    exists a: nat :: g.Edge(a, b) && doms[a] != []
  }

  /** On a path from a root, stable edges leave no element off the path in the set of its end. */
  lemma {:induction false} StablePath(g: Graph, roots: set<nat>, doms: seq<seq<nat>>, p: seq<nat>, n: nat)
    requires Upper(g, roots, doms) && Queued(g, doms, [])
    requires RootedPath(g, roots, n, p)
    ensures n < |doms| && doms[n] != [] && forall d :: d in doms[n] ==> d in p
    decreases |p|
  {
    if |p| == 1 {
      assert UpperAt(g, roots, doms[n], n);
    } else {
      var q, a := p[..|p| - 1], p[|p| - 2];
      PathSlice(g, p, 0, |p| - 1);
      assert RootedPath(g, roots, a, q);
      StablePath(g, roots, doms, q, a);
      assert g.Edge(p[|p| - 2], p[|p| - 1]);
      assert Stable(doms, a, n);
    }
  }

  /** A fixed point is exact. */
  lemma FixedPointIsExact(g: Graph, roots: set<nat>, doms: seq<seq<nat>>)
    requires Upper(g, roots, doms) && Queued(g, doms, [])
    ensures Exact(g, roots, doms)
  {
    forall n | 0 <= n < |doms|
      ensures Sorted(doms[n])
      ensures doms[n] != [] <==> Reachable(g, roots, n)
      ensures doms[n] != [] ==> forall d :: d in doms[n] <==> Dominates(g, roots, d, n)
    {
      assert UpperAt(g, roots, doms[n], n);
      if Reachable(g, roots, n) {
        var p :| RootedPath(g, roots, n, p);
        StablePath(g, roots, doms, p, n);
      }
      forall d, p: seq<nat> | d in doms[n] && RootedPath(g, roots, n, p)
        ensures d in p
      {
        StablePath(g, roots, doms, p, n);
      }
    }
  }

  // --- termination --------------------------------------------------------------------

  /** Size of a stored set, an unreached node counting as one more than the largest set. */
  function Weight(n: nat, dom: seq<nat>): nat {
    if dom == [] then n + 1 else |dom|
  }

  function Weights(n: nat, doms: seq<seq<nat>>): nat {
    if doms == [] then 0 else Weight(n, doms[0]) + Weights(n, doms[1..])
  }

  lemma {:induction false} WeightsUpdate(n: nat, doms: seq<seq<nat>>, i: nat, dom: seq<nat>)
    requires i < |doms|
    ensures Weights(n, doms[i := dom]) == Weights(n, doms) - Weight(n, doms[i]) + Weight(n, dom)
  {
    var new_ := doms[i := dom];
    if i == 0 {
      assert new_[1..] == doms[1..];
    } else {
      assert new_[1..] == doms[1..][i - 1 := dom];
      WeightsUpdate(n, doms[1..], i - 1, dom);
    }
  }

  /** A sorted set of nodes is no larger than the graph. */
  lemma {:induction false} BoundedSize(s: seq<nat>, n: nat)
    requires Sorted(s) && forall x :: x in s ==> x < n
    ensures |s| <= n
    decreases n
  {
    if s != [] {
      var m := |s| - 1;
      assert s[m] in s;
      var t := s[..m];
      forall x | x in t
        ensures x < n - 1
      {
        assert s[m] < n;
      }
      BoundedSize(t, n - 1);
    }
  }

  lemma SubsetSize(r: seq<nat>, s: seq<nat>)
    requires Sorted(r) && Sorted(s) && forall x :: x in r ==> x in s
    ensures |r| <= |s| && (|r| == |s| ==> r == s)
  {
    SizeIsLength(r);
    SizeIsLength(s);
    SubsetCardinality(Elements(r), Elements(s));
    if |r| == |s| {
      SameElements(r, s);
    }
  }

  lemma SubsetCardinality(a: set<nat>, b: set<nat>)
    requires a <= b
    ensures |a| <= |b| && (|a| == |b| ==> a == b)
  {
    assert b == a + (b - a);
  }

  // --- the computation ----------------------------------------------------------------

  /** The set taken over from a reached predecessor is an over-approximation. */
  lemma SeedUpper(g: Graph, roots: set<nat>, dom: seq<nat>, a: nat, b: nat)
    requires g.Edge(a, b) && b !in roots
    requires UpperAt(g, roots, dom, a) && dom != []
    ensures UpperAt(g, roots, Insert(dom, b), b)
  {
    ReachableAlongEdge(g, roots, a, b);
    forall d | Dominates(g, roots, d, b)
      ensures d in Insert(dom, b)
    {
      if d != b {
        DominatesAlongEdge(g, roots, d, a, b);
      }
    }
  }

  /** Intersecting with the set of a reached predecessor keeps an over-approximation. */
  lemma IntersectUpper(g: Graph, roots: set<nat>, dom: seq<nat>, other: seq<nat>, a: nat, b: nat, r: seq<nat>)
    requires g.Edge(a, b)
    requires UpperAt(g, roots, dom, b) && dom != []
    requires UpperAt(g, roots, other, a) && other != []
    requires Sorted(r) && forall x :: x in r <==> x in dom && (x == b || x in other)
    ensures UpperAt(g, roots, r, b)
  {
    forall d | Dominates(g, roots, d, b)
      ensures d in r
    {
      if d != b {
        DominatesAlongEdge(g, roots, d, a, b);
      }
    }
    if b in roots {
      assert Elements(r) == {b} == Elements([b]);
      SameElements(r, [b]);
    }
  }

  /** Exactly the nodes in `seen` have been given their own set. */
  ghost predicate RootsSet(g: Graph, doms: seq<seq<nat>>, seen: set<nat>) {
    && |doms| == |g.out|
    && forall n :: 0 <= n < |doms| ==> doms[n] == if n in seen then [n] else []
  }

  /** Exactly the successors of `seen` are queued. */
  ghost predicate RootsQueued(g: Graph, work: seq<nat>, seen: set<nat>) {
    && (forall a: nat, b: nat :: a in seen && g.Edge(a, b) ==> b in work)
    && (forall b :: b in work ==> exists a: nat :: a in seen && g.Edge(a, b))
  }

  lemma AddRoot(g: Graph, work: seq<nat>, seen: set<nat>, n: nat)
    requires g.Valid() && n < |g.out| && RootsQueued(g, work, seen)
    ensures RootsQueued(g, work + g.out[n], seen + {n})
  {
    forall b | b in work + g.out[n]
      ensures exists a: nat :: a in seen + {n} && g.Edge(a, b)
    {
      if b in work {
        var a: nat :| a in seen && g.Edge(a, b);
      } else {
        assert g.Edge(n, b);
      }
    }
  }

  lemma InitialInvariant(g: Graph, roots: set<nat>, doms: seq<seq<nat>>, work: seq<nat>)
    requires RootsSet(g, doms, roots) && RootsQueued(g, work, roots)
    ensures Upper(g, roots, doms) && Queued(g, doms, work) && Fed(g, doms, work)
  {
    forall n | 0 <= n < |doms|
      ensures UpperAt(g, roots, doms[n], n)
    {
      if n in roots {
        RootDominators(g, roots, n);
      }
    }
    forall b | b in work
      ensures HasReachedPredecessor(g, doms, b)
    {
      var a: nat :| a in roots && g.Edge(a, b);
      assert doms[a] != [];
    }
  }

  /** Once the edges into the processed node are stable, queueing its successors is enough. */
  lemma Requeue(g: Graph, before: seq<seq<nat>>, after: seq<seq<nat>>, current: nat, rest: seq<nat>)
    requires g.Valid() && |before| == |after| == |g.out| && current < |before|
    requires Queued(g, before, [current] + rest) && Fed(g, before, [current] + rest)
    requires after == before[current := after[current]] && after[current] != []
    requires forall a: nat :: g.Edge(a, current) ==> Stable(after, a, current)
    ensures Queued(g, after, rest + g.out[current]) && Fed(g, after, rest + g.out[current])
    ensures after == before ==> Queued(g, after, rest) && Fed(g, after, rest)
  {
    forall a: nat, b: nat | g.Edge(a, b)
      ensures b in rest || Stable(after, a, b) || (a == current && after != before)
    {
      assert b in [current] + rest || Stable(before, a, b);
    }
    forall b | b in rest
      ensures HasReachedPredecessor(g, after, b)
    {
      assert b in [current] + rest;
      var a: nat :| g.Edge(a, b) && before[a] != [];
      assert after[a] != [];
    }
    forall b | b in g.out[current]
      ensures HasReachedPredecessor(g, after, b)
    {
      assert g.Edge(current, b);
    }
  }

  class CfgDominators {
    const cfg: Graph
    const postDom: bool
    var dominators: seq<seq<nat>>

    constructor (cfg: Graph, postDom: bool)
      requires cfg.Valid()
      ensures this.cfg == cfg && this.postDom == postDom
      ensures dominators == seq(|cfg.out|, _ => [])
    {
      this.cfg := cfg;
      this.postDom := postDom;
      dominators := seq(|cfg.out|, _ => []);
    }

    /** The graph in the direction the analysis walks. */
    function Flow(): (g: Graph)
      ensures cfg.Valid() ==> g.Valid() && |g.out| == |cfg.out|
    {
      if postDom then cfg.Reverse() else cfg
    }

    predicate IsExit(n: nat)
      requires n < |cfg.out|
    {
      cfg.out[n] == [] || cfg.out[n] == [n]
    }

    /**
     Where the walk starts: the first instruction; or, for post-dominators, the last one
     and all that have no successor but possibly themselves.
     */
    function Roots(): set<nat> {
      if |cfg.out| == 0 then {}
      else if postDom then {|cfg.out| - 1} + set n: nat | n < |cfg.out| && IsExit(n)
      else {0}
    }

    function Incoming(n: nat): (edges: seq<nat>)
      requires cfg.Valid() && n < |cfg.out|
      ensures forall a :: a in edges <==> Flow().Edge(a, n)
      ensures forall i :: 0 <= i < |edges| ==> Flow().Edge(edges[i], n)
    {
      Flow().into[n]
    }

    /** lhs dominates rhs; nothing is said to dominate a node that cannot be reached, not even itself. */
    predicate DominatesQuery(lhs: nat, rhs: nat): (r: bool)
      requires rhs < |dominators|
      reads this
      ensures Exact(Flow(), Roots(), dominators) ==>
                (r <==> Reachable(Flow(), Roots(), rhs) && Dominates(Flow(), Roots(), lhs, rhs))
    {
      lhs in dominators[rhs]
    }

    predicate ProgramPointReachable(n: nat): (r: bool)
      requires n < |dominators|
      reads this
      ensures Exact(Flow(), Roots(), dominators) ==> (r <==> Reachable(Flow(), Roots(), n))
    {
      dominators[n] != []
    }

    /** A node is said to dominate itself exactly if it can be reached. */
    lemma QueryReflexiveExactly(n: nat)
      requires n < |dominators| && Exact(Flow(), Roots(), dominators)
      ensures DominatesQuery(n, n) <==> Reachable(Flow(), Roots(), n)
    {
      DominatesReflexive(Flow(), Roots(), n);
    }

    ghost predicate WorkInvariant(work: seq<nat>)
      reads this
    {
      && cfg.Valid()
      && Upper(Flow(), Roots(), dominators)
      && Queued(Flow(), dominators, work)
      && Fed(Flow(), dominators, work)
    }

    /** Takes over the set of a reached predecessor for a node that has none yet. */
    method Seed(current: nat) returns (changed: bool)
      requires cfg.Valid() && Upper(Flow(), Roots(), dominators)
      requires current < |cfg.out| && dominators[current] == []
      requires HasReachedPredecessor(Flow(), dominators, current)
      modifies this
      ensures Upper(Flow(), Roots(), dominators)
      ensures changed && dominators[current] != []
      ensures dominators == old(dominators)[current := dominators[current]]
    {
      changed := false;
      var edges := Incoming(current);
      for i := 0 to |edges|
        invariant Upper(Flow(), Roots(), dominators) && |dominators| == |cfg.out|
        invariant dominators == old(dominators)[current := dominators[current]]
        invariant changed <==> dominators[current] != []
        invariant changed <==> exists k :: 0 <= k < i && old(dominators)[edges[k]] != []
      {
        var a := edges[i];
        if dominators[a] != [] {
          assert UpperAt(Flow(), Roots(), dominators[a], a);
          assert UpperAt(Flow(), Roots(), old(dominators)[current], current);
          SeedUpper(Flow(), Roots(), dominators[a], a, current);
          dominators := dominators[current := Insert(dominators[a], current)];
          changed := true;
        }
      }
    }

    /** Intersects the set of a reached node with those of all its reached predecessors. */
    method Intersect(current: nat) returns (changed: bool)
      requires cfg.Valid() && Upper(Flow(), Roots(), dominators)
      requires current < |cfg.out| && dominators[current] != []
      modifies this
      ensures Upper(Flow(), Roots(), dominators)
      ensures dominators == old(dominators)[current := dominators[current]]
      ensures dominators[current] != []
      ensures forall a: nat :: Flow().Edge(a, current) ==> Stable(dominators, a, current)
      ensures changed ==> |dominators[current]| < |old(dominators)[current]|
      ensures !changed ==> dominators == old(dominators)
    {
      changed := false;
      var edges := Incoming(current);
      for i := 0 to |edges|
        invariant Upper(Flow(), Roots(), dominators) && |dominators| == |cfg.out|
        invariant dominators == old(dominators)[current := dominators[current]]
        invariant dominators[current] != []
        invariant forall k :: 0 <= k < i ==> Stable(dominators, edges[k], current)
        invariant if changed then |dominators[current]| < |old(dominators)[current]| else dominators == old(dominators)
      {
        var a := edges[i];
        var other := dominators[a];
        if other == [] {
          continue;
        }
        ghost var before := dominators;
        var r, c := IntersectInPlace(dominators[current], other, current);
        assert UpperAt(Flow(), Roots(), before[current], current);
        assert UpperAt(Flow(), Roots(), other, a);
        IntersectUpper(Flow(), Roots(), before[current], other, a, current, r);
        SubsetSize(r, before[current]);
        dominators := dominators[current := r];
        changed := changed || c;
        assert forall k :: 0 <= k < i ==> Stable(before, edges[k], current);
        assert Stable(dominators, a, current);
      }
    }

    /** The roots dominate themselves; the nodes they lead to are queued. */
    method Initialise() returns (work: seq<nat>)
      requires cfg.Valid() && |cfg.out| > 0
      requires dominators == seq(|cfg.out|, _ => [])
      modifies this
      ensures WorkInvariant(work)
    {
      var entry := if postDom then |cfg.out| - 1 else 0;
      dominators := dominators[entry := [entry]];
      work := Flow().out[entry];
      if postDom {
        work := AddExits(entry, work);
      } else {
        assert Roots() == {entry};
      }
      InitialInvariant(Flow(), Roots(), dominators, work);
    }

    /** One more exit dominates itself, and the nodes it leads to are queued. */
    method AddExit(n: nat, work0: seq<nat>, ghost seen: set<nat>) returns (work: seq<nat>)
      requires cfg.Valid() && n < |cfg.out|
      requires RootsSet(Flow(), dominators, seen) && RootsQueued(Flow(), work0, seen)
      modifies this
      ensures RootsSet(Flow(), dominators, seen + {n}) && RootsQueued(Flow(), work, seen + {n})
    {
      dominators := dominators[n := [n]];
      AddRoot(Flow(), work0, seen, n);
      work := work0 + Flow().out[n];
    }

    /** A function may have several exits: self-loops and dead ends besides its last instruction. */
    method AddExits(entry: nat, work0: seq<nat>) returns (work: seq<nat>)
      requires cfg.Valid() && postDom && entry == |cfg.out| - 1
      requires RootsSet(Flow(), dominators, {entry}) && RootsQueued(Flow(), work0, {entry})
      modifies this
      ensures RootsSet(Flow(), dominators, Roots()) && RootsQueued(Flow(), work, Roots())
    {
      work := work0;
      assert RootsBefore(0) == {entry};
      for n := 0 to |cfg.out|
        invariant RootsSet(Flow(), dominators, RootsBefore(n)) && RootsQueued(Flow(), work, RootsBefore(n))
      {
        NextExit(n);
        if n != entry && IsExit(n) {
          work := AddExit(n, work, RootsBefore(n));
        }
      }
      assert RootsBefore(|cfg.out|) == Roots();
    }

    /** The last instruction, and the exits from before `k`. */
    ghost function RootsBefore(k: nat): set<nat>
      requires 0 < |cfg.out| && k <= |cfg.out|
    {
      {|cfg.out| - 1} + set n: nat | n < k && IsExit(n)
    }

    lemma NextExit(n: nat)
      requires n < |cfg.out|
      ensures RootsBefore(n + 1) ==
        if n != |cfg.out| - 1 && IsExit(n) then RootsBefore(n) + {n} else RootsBefore(n)
    {
    }

    /** One turn of the worklist loop. */
    method Step(work: seq<nat>) returns (rest: seq<nat>)
      requires work != [] && WorkInvariant(work)
      modifies this
      ensures WorkInvariant(rest)
      ensures
        || Weights(|cfg.out|, dominators) < Weights(|cfg.out|, old(dominators))
        || (dominators == old(dominators) && |rest| < |work|)
    {
      var current := work[0];
      rest := work[1..];
      assert work == [current] + rest;
      assert HasReachedPredecessor(Flow(), dominators, current);
      var changed := false;
      if dominators[current] == [] {
        changed := Seed(current);
      }
      ghost var seeded := dominators;
      var shrunk := Intersect(current);
      changed := changed || shrunk;
      ghost var n := |cfg.out|;
      assert UpperAt(Flow(), Roots(), seeded[current], current);
      BoundedSize(seeded[current], n);
      WeightsUpdate(n, old(dominators), current, dominators[current]);
      Requeue(Flow(), old(dominators), dominators, current, rest);
      if changed {
        rest := rest + Flow().out[current];
      }
    }

    method Fixedpoint()
      requires cfg.Valid()
      requires dominators == seq(|cfg.out|, _ => [])
      modifies this
      ensures Exact(Flow(), Roots(), dominators)
    {
      if |cfg.out| == 0 {
        return;
      }
      var work := Initialise();
      while work != []
        invariant WorkInvariant(work)
        decreases Weights(|cfg.out|, dominators), |work|
      {
        work := Step(work);
      }
      FixedPointIsExact(Flow(), Roots(), dominators);
    }
  }
}
