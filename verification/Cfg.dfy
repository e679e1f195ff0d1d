/**
 Control-flow graphs of one goto function. Instructions are numbered by their position
 in the function, which is also the order of their location numbers.
 */
module Cfg {

  /** A graph that stores both edge directions of each node, as the procedure-local CFG does. */
  datatype Graph = Graph(out: seq<seq<nat>>, into: seq<seq<nat>>) {

    ghost predicate Valid() {
      && |into| == |out|
      && (forall a, b :: 0 <= a < |out| && b in out[a] ==> b < |out|)
      && (forall a, b :: 0 <= b < |out| && a in into[b] ==> a < |out|)
      && (forall a, b :: 0 <= a < |out| && 0 <= b < |out| ==> (b in out[a] <==> a in into[b]))
      && (forall a, i, j :: 0 <= a < |out| && 0 <= i < j < |out[a]| ==> out[a][i] != out[a][j])
      && (forall a, i, j :: 0 <= a < |into| && 0 <= i < j < |into[a]| ==> into[a][i] != into[a][j])
    }

    /** There is an edge from `a` to `b`. */
    predicate Edge(a: nat, b: nat) {
      a < |out| && b < |out| && b in out[a]
    }

    function Reverse(): Graph {
      Graph(into, out)
    }
  }

  /** A non-empty sequence of nodes, each with an edge to the next. */
  ghost predicate IsPath(g: Graph, p: seq<nat>) {
    && p != []
    && p[0] < |g.out|
    && forall i :: 0 < i < |p| ==> g.Edge(p[i - 1], p[i])
  }

  function Range(n: nat): (r: set<nat>)
    ensures |r| == n && forall x: nat :: x in r <==> x < n
  {
    if n == 0 then {} else Range(n - 1) + {n - 1}
  }

  function Last<T>(p: seq<T>): T
    requires p != []
  {
    p[|p| - 1]
  }

  ghost predicate PathBetween(g: Graph, a: nat, b: nat, p: seq<nat>) {
    IsPath(g, p) && p[0] == a && Last(p) == b
  }

  /** Some path, possibly of a single node, leads from `a` to `b`. */
  ghost predicate Reaches(g: Graph, a: nat, b: nat) {
    exists p: seq<nat> :: PathBetween(g, a, b, p)
  }

  /** Some path from `a` to `b` stays clear of `avoid`. */
  ghost predicate ReachesAvoiding(g: Graph, a: nat, b: nat, avoid: nat) {
    exists p: seq<nat> :: PathBetween(g, a, b, p) && avoid !in p
  }

  lemma PathInRange(g: Graph, p: seq<nat>, x: nat)
    requires IsPath(g, p) && x in p
    ensures x < |g.out|
  {
    var i :| 0 <= i < |p| && p[i] == x;
    if i > 0 {
      assert g.Edge(p[i - 1], p[i]);
    }
  }

  lemma PathSlice(g: Graph, p: seq<nat>, i: nat, j: nat)
    requires IsPath(g, p) && i < j <= |p|
    ensures IsPath(g, p[i..j])
  {
    PathInRange(g, p, p[i]);
    var q := p[i..j];
    forall k | 0 < k < |q|
      ensures g.Edge(q[k - 1], q[k])
    {
      assert g.Edge(p[i + k - 1], p[i + k]);
    }
  }

  lemma PathExtend(g: Graph, p: seq<nat>, b: nat)
    requires IsPath(g, p) && g.Edge(Last(p), b)
    ensures IsPath(g, p + [b]) && Last(p + [b]) == b
  {
  }

  lemma PathPrepend(g: Graph, a: nat, p: seq<nat>)
    requires IsPath(g, p) && g.Edge(a, p[0])
    ensures IsPath(g, [a] + p) && Last([a] + p) == Last(p)
  {
    var q := [a] + p;
    forall k | 0 < k < |q|
      ensures g.Edge(q[k - 1], q[k])
    {
      if k > 1 {
        assert g.Edge(p[k - 2], p[k - 1]);
      }
    }
  }

  /** Two paths that meet, joined without repeating the shared node. */
  function Join(p: seq<nat>, q: seq<nat>): seq<nat>
    requires q != []
  {
    p + q[1..]
  }

  lemma PathJoin(g: Graph, p: seq<nat>, q: seq<nat>)
    requires IsPath(g, p) && IsPath(g, q) && Last(p) == q[0]
    ensures IsPath(g, Join(p, q)) && Join(p, q)[0] == p[0] && Last(Join(p, q)) == Last(q)
    ensures forall x :: x in Join(p, q) <==> x in p || x in q
  {
    var r := Join(p, q);
    forall k | 0 < k < |r|
      ensures g.Edge(r[k - 1], r[k])
    {
      if k < |p| {
        assert g.Edge(p[k - 1], p[k]);
      } else {
        var m := k - |p| + 1;
        assert g.Edge(q[m - 1], q[m]);
      }
    }
    forall x
      ensures x in r <==> x in p || x in q
    {
      assert q == [q[0]] + q[1..];
      assert q[0] in p;
    }
  }

  function Reversed<T>(p: seq<T>): (r: seq<T>)
    ensures |r| == |p|
    ensures forall i :: 0 <= i < |p| ==> r[i] == p[|p| - 1 - i]
  {
    seq(|p|, i requires 0 <= i < |p| => p[|p| - 1 - i])
  }

  /** Reading a path backwards gives a path of the reversed graph. */
  lemma PathReversed(g: Graph, p: seq<nat>)
    requires g.Valid() && IsPath(g, p)
    ensures IsPath(g.Reverse(), Reversed(p))
    ensures Reversed(p)[0] == Last(p) && Last(Reversed(p)) == p[0]
    ensures forall x :: x in Reversed(p) <==> x in p
  {
    var r := Reversed(p);
    PathInRange(g, p, Last(p));
    forall k | 0 < k < |r|
      ensures g.Reverse().Edge(r[k - 1], r[k])
    {
      var m := |p| - k;
      assert g.Edge(p[m - 1], p[m]);
    }
    forall x | x in p
      ensures x in r
    {
      var i :| 0 <= i < |p| && p[i] == x;
      assert r[|p| - 1 - i] == x;
    }
  }

  lemma ReverseValid(g: Graph)
    requires g.Valid()
    ensures g.Reverse().Valid() && g.Reverse().Reverse() == g
    ensures forall a, b :: g.Reverse().Edge(a, b) <==> g.Edge(b, a)
  {
  }
}
