/**
 Dominance as a property of all paths: `d` dominates `n` when no path from a root to `n`
 avoids `d`. The roots are the entry, or the exits when the graph is reversed.
 */
module Dominance {
  import opened Cfg

  /** `n` lies on a path from some root. */
  ghost predicate Reachable(g: Graph, roots: set<nat>, n: nat) {
    exists p: seq<nat> :: RootedPath(g, roots, n, p)
  }

  ghost predicate RootedPath(g: Graph, roots: set<nat>, n: nat, p: seq<nat>) {
    IsPath(g, p) && p[0] in roots && Last(p) == n
  }

  /** `d` lies on every path from a root to `n`. */
  ghost predicate Dominates(g: Graph, roots: set<nat>, d: nat, n: nat) {
    forall p: seq<nat> :: RootedPath(g, roots, n, p) ==> d in p
  }

  lemma RootDominators(g: Graph, roots: set<nat>, r: nat)
    requires r in roots && r < |g.out|
    ensures Reachable(g, roots, r)
    ensures forall d :: Dominates(g, roots, d, r) <==> d == r
  {
    assert RootedPath(g, roots, r, [r]);
    forall d | Dominates(g, roots, d, r)
      ensures d == r
    {
      assert d in [r];
    }
  }

  /** Dominators can only be lost along an edge, apart from the target itself. */
  lemma DominatesAlongEdge(g: Graph, roots: set<nat>, d: nat, a: nat, b: nat)
    requires g.Edge(a, b) && Dominates(g, roots, d, b) && d != b
    ensures Dominates(g, roots, d, a)
  {
    forall p: seq<nat> | RootedPath(g, roots, a, p)
      ensures d in p
    {
      PathExtend(g, p, b);
      assert RootedPath(g, roots, b, p + [b]);
    }
  }

  lemma ReachableAlongEdge(g: Graph, roots: set<nat>, a: nat, b: nat)
    requires g.Edge(a, b) && Reachable(g, roots, a)
    ensures Reachable(g, roots, b)
  {
    var p :| RootedPath(g, roots, a, p);
    PathExtend(g, p, b);
    assert RootedPath(g, roots, b, p + [b]);
  }

  /** Everything on a rooted path to a reachable node, its dominators included, is reachable. */
  lemma ReachableOnPath(g: Graph, roots: set<nat>, n: nat, p: seq<nat>, i: nat)
    requires RootedPath(g, roots, n, p) && i < |p|
    ensures RootedPath(g, roots, p[i], p[..i + 1])
  {
    PathSlice(g, p, 0, i + 1);
  }

  lemma DominatorReachable(g: Graph, roots: set<nat>, d: nat, n: nat)
    requires Reachable(g, roots, n) && Dominates(g, roots, d, n)
    ensures Reachable(g, roots, d)
  {
    var p :| RootedPath(g, roots, n, p);
    var i :| 0 <= i < |p| && p[i] == d;
    ReachableOnPath(g, roots, n, p, i);
  }

  lemma DominatesTransitive(g: Graph, roots: set<nat>, a: nat, b: nat, c: nat)
    requires Dominates(g, roots, a, b) && Dominates(g, roots, b, c)
    ensures Dominates(g, roots, a, c)
  {
    forall p: seq<nat> | RootedPath(g, roots, c, p)
      ensures a in p
    {
      var i :| 0 <= i < |p| && p[i] == b;
      ReachableOnPath(g, roots, c, p, i);
      assert a in p[..i + 1];
    }
  }

  /** Two distinct reachable nodes cannot dominate each other. */
  lemma DominatesAntisymmetric(g: Graph, roots: set<nat>, a: nat, b: nat)
    requires Reachable(g, roots, b)
    requires Dominates(g, roots, a, b) && Dominates(g, roots, b, a)
    ensures a == b
  {
    if a != b {
      var p :| RootedPath(g, roots, b, p);
      NoShortestPath(g, roots, a, b, p);
    }
  }

  /** If two nodes dominated each other, a path to one would hold a shorter path to it. */
  lemma {:induction false} NoShortestPath(g: Graph, roots: set<nat>, a: nat, b: nat, p: seq<nat>)
    requires a != b && Dominates(g, roots, a, b) && Dominates(g, roots, b, a)
    requires RootedPath(g, roots, b, p)
    ensures false
    decreases |p|
  {
    var i :| 0 <= i < |p| && p[i] == a;
    ReachableOnPath(g, roots, b, p, i);
    NoShortestPath(g, roots, b, a, p[..i + 1]);
  }

  /** The dominators of a reachable node form a chain. */
  lemma DominatorsFormChain(g: Graph, roots: set<nat>, a: nat, b: nat, n: nat)
    requires Reachable(g, roots, n)
    requires Dominates(g, roots, a, n) && Dominates(g, roots, b, n)
    ensures Dominates(g, roots, a, b) || Dominates(g, roots, b, a)
  {
    var p :| RootedPath(g, roots, n, p);
    var i, j := LastIndex(p, a), LastIndex(p, b);
    if i <= j {
      EarlierDominates(g, roots, a, b, n, p, i, j);
    } else {
      EarlierDominates(g, roots, b, a, n, p, j, i);
    }
  }

  lemma EarlierDominates(g: Graph, roots: set<nat>, a: nat, b: nat, n: nat, p: seq<nat>, i: nat, j: nat)
    requires RootedPath(g, roots, n, p) && Dominates(g, roots, a, n)
    requires i <= j < |p| && p[i] == a && p[j] == b && a !in p[i + 1..]
    ensures Dominates(g, roots, a, b)
  {
    forall q: seq<nat> | RootedPath(g, roots, b, q)
      ensures a in q
    {
      var tail := p[j..];
      PathSlice(g, p, j, |p|);
      PathJoin(g, q, tail);
      assert RootedPath(g, roots, n, Join(q, tail));
      assert forall k :: 0 < k < |tail| ==> tail[k] == p[i + 1..][j + k - i - 1];
    }
  }

  lemma DominatesReflexive(g: Graph, roots: set<nat>, n: nat)
    ensures Dominates(g, roots, n, n)
  {
  }

  /** A finite chain under dominance has a first element. */
  lemma {:induction false} FirstOfChain(g: Graph, roots: set<nat>, chain: set<nat>) returns (b: nat)
    requires chain != {}
    requires forall e, f :: e in chain && f in chain ==> Dominates(g, roots, e, f) || Dominates(g, roots, f, e)
    ensures b in chain && forall e :: e in chain ==> Dominates(g, roots, b, e)
    decreases |chain|
  {
    var x :| x in chain;
    var rest := chain - {x};
    if rest == {} {
      assert chain == {x};
      b := x;
    } else {
      b := FirstOfChain(g, roots, rest);
      if !Dominates(g, roots, b, x) {
        forall e | e in rest
          ensures Dominates(g, roots, x, e)
        {
          DominatesTransitive(g, roots, x, b, e);
        }
        b := x;
      }
    }
  }

  ghost function LastIndex(p: seq<nat>, x: nat): (i: nat)
    requires x in p
    ensures i < |p| && p[i] == x && x !in p[i + 1..]
  {
    var m := |p| - 1;
    if p[m] == x then m else
      assert p == p[..m] + [p[m]];
      var i := LastIndex(p[..m], x);
      assert p[i + 1..] == p[..m][i + 1..] + [p[m]];
      i
  }

  // --- post-dominance ------------------------------------------------------------------

  /** Some path leads from `n` to an exit. */
  ghost predicate CanExit(g: Graph, exits: set<nat>, n: nat) {
    exists p: seq<nat> :: ExitPath(g, exits, n, p)
  }

  ghost predicate ExitPath(g: Graph, exits: set<nat>, n: nat, p: seq<nat>) {
    IsPath(g, p) && p[0] == n && Last(p) in exits
  }

  /** `n` can leave the function, and only through `d`. */
  ghost predicate PostDominates(g: Graph, exits: set<nat>, d: nat, n: nat) {
    CanExit(g, exits, n) && forall p: seq<nat> :: ExitPath(g, exits, n, p) ==> d in p
  }

  /** Post-dominance is dominance in the reversed graph. */
  lemma PostDominanceIsReverseDominance(g: Graph, exits: set<nat>, n: nat)
    requires g.Valid()
    ensures CanExit(g, exits, n) <==> Reachable(g.Reverse(), exits, n)
    ensures CanExit(g, exits, n) ==>
      forall d :: PostDominates(g, exits, d, n) <==> Dominates(g.Reverse(), exits, d, n)
  {
    var r := g.Reverse();
    ReverseValid(g);
    forall p: seq<nat> | ExitPath(g, exits, n, p)
      ensures RootedPath(r, exits, n, Reversed(p))
      ensures forall x :: x in Reversed(p) <==> x in p
    {
      PathReversed(g, p);
    }
    forall p: seq<nat> | RootedPath(r, exits, n, p)
      ensures ExitPath(g, exits, n, Reversed(p))
      ensures forall x :: x in Reversed(p) <==> x in p
    {
      PathReversed(r, p);
    }
  }
}
