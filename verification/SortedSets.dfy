/**
 Ordered sets of nodes, kept as strictly increasing sequences, with the two operations
 the analyses perform on them in place.
 */
module SortedSets {

  ghost predicate Sorted(s: seq<nat>) {
    forall i, j :: 0 <= i < j < |s| ==> s[i] < s[j]
  }

  function Elements(s: seq<nat>): set<nat> {
    set x | x in s
  }

  lemma SizeIsLength(s: seq<nat>)
    requires Sorted(s)
    ensures |Elements(s)| == |s|
  {
    if s != [] {
      var t := s[..|s| - 1];
      SizeIsLength(t);
      assert s == t + [s[|s| - 1]];
      assert Elements(s) == Elements(t) + {s[|s| - 1]};
    }
  }

  lemma SameElements(s: seq<nat>, t: seq<nat>)
    requires Sorted(s) && Sorted(t) && Elements(s) == Elements(t)
    ensures s == t
  {
    SizeIsLength(s);
    SizeIsLength(t);
    if s != [] {
      var a, b := s[|s| - 1], t[|t| - 1];
      assert a in Elements(t) && b in Elements(s);
      assert a == b;
      var s', t' := s[..|s| - 1], t[..|t| - 1];
      assert s == s' + [a] && t == t' + [b];
      assert Elements(s') == Elements(s) - {a};
      assert Elements(t') == Elements(t) - {b};
      SameElements(s', t');
    }
  }

  /** std::set::insert. */
  function Insert(s: seq<nat>, x: nat): (r: seq<nat>)
    requires Sorted(s)
    ensures Sorted(r)
    ensures forall y :: y in r <==> y in s || y == x
  {
    if s == [] then [x]
    else
      var m := |s| - 1;
      assert s == s[..m] + [s[m]];
      if s[m] < x then s + [x]
      else if x == s[m] then s
      else
        var t := Insert(s[..m], x);
        assert forall k :: 0 <= k < |t| ==> t[k] in t;
        t + [s[m]]
  }

  /** std::set::erase at an iterator. */
  function Erase(s: seq<nat>, i: nat): (r: seq<nat>)
    requires Sorted(s) && i < |s|
    ensures Sorted(r) && |r| == |s| - 1 && r[..i] == s[..i]
    ensures forall x :: x in r <==> x in s && x != s[i]
    ensures i < |r| ==> s[i] < r[i]
  {
    s[..i] + s[i + 1..]
  }

  /** Between two neighbours of a sorted sequence there is no element. */
  lemma BetweenNeighbours(s: seq<nat>, j: nat, x: nat)
    requires Sorted(s) && j <= |s|
    requires j > 0 ==> s[j - 1] < x
    requires j < |s| ==> x < s[j]
    ensures x !in s
  {
  }

  /**
   Intersects `dom` with `other` by walking both in step and erasing on the way; the
   element `current` is skipped, so it survives even when `other` does not have it.
   */
  method IntersectInPlace(dom: seq<nat>, other: seq<nat>, current: nat) returns (r: seq<nat>, changed: bool)
    requires Sorted(dom) && Sorted(other)
    ensures Sorted(r)
    ensures forall x :: x in r <==> x in dom && (x == current || x in other)
    ensures changed <==> r != dom
  {
    r, changed := dom, false;
    var i, j := 0, 0;
    while i < |r| && j < |other|
      invariant 0 <= i <= |r| <= |dom| && j <= |other|
      invariant Sorted(r)
      invariant if changed then |r| < |dom| else r == dom
      invariant forall x :: x in r[..i] ==> x == current || x in other
      invariant forall x :: x in r ==> x in dom
      invariant forall x :: x in dom && (x == current || x in other) ==> x in r
      invariant i < |r| && j > 0 ==> other[j - 1] < r[i]
      decreases |r| - i + |other| - j
    {
      if r[i] == current {
        assert r[..i + 1] == r[..i] + [r[i]];
        i := i + 1;
      } else if r[i] < other[j] {
        BetweenNeighbours(other, j, r[i]);
        changed := true;
        r := Erase(r, i);
      } else if other[j] < r[i] {
        j := j + 1;
      } else {
        assert r[..i + 1] == r[..i] + [r[i]];
        i, j := i + 1, j + 1;
      }
    }
    while i < |r|
      invariant 0 <= i <= |r| <= |dom| && j <= |other|
      invariant Sorted(r)
      invariant if changed then |r| < |dom| else r == dom
      invariant forall x :: x in r[..i] ==> x == current || x in other
      invariant forall x :: x in r ==> x in dom
      invariant forall x :: x in dom && (x == current || x in other) ==> x in r
      invariant i < |r| ==> j == |other| && (j > 0 ==> other[j - 1] < r[i])
      decreases |r| - i
    {
      if r[i] == current {
        assert r[..i + 1] == r[..i] + [r[i]];
        i := i + 1;
      } else {
        BetweenNeighbours(other, j, r[i]);
        changed := true;
        r := Erase(r, i);
      }
    }
    assert r[..i] == r;
  }
}
