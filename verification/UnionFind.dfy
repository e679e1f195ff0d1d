/**
 Partitions of an initial segment of the numbers as forests of parent pointers. What the invariant
 sets do never makes a forest more than two levels deep.
 */
module UnionFind {

  ghost predicate ShallowAt(p: seq<nat>, i: nat) {
    i < |p| ==> p[i] < |p| && p[p[i]] < |p| && p[p[p[i]]] == p[p[i]]
  }

  /** Two steps up there is a root. */
  ghost predicate Shallow(p: seq<nat>) {
    forall i: nat :: ShallowAt(p, i)
  }

  ghost predicate FlatAt(p: seq<nat>, i: nat) {
    i < |p| ==> p[i] < |p| && p[p[i]] == p[i]
  }

  /** One step up there is a root. */
  ghost predicate Flat(p: seq<nat>) {
    forall i: nat :: FlatAt(p, i)
  }

  /** The root of a number; those not in the forest are their own. */
  function Find(p: seq<nat>, i: nat): (r: nat)
    requires Shallow(p)
    ensures i < |p| ==> r < |p| && p[r] == r
    ensures i >= |p| ==> r == i
  {
    assert ShallowAt(p, i);
    if i < |p| then p[p[i]] else i
  }

  predicate SameSet(p: seq<nat>, i: nat, j: nat)
    requires Shallow(p)
  {
    Find(p, i) == Find(p, j)
  }

  /** The numbers whose root is `r`. */
  function Members(p: seq<nat>, r: nat): set<nat>
    requires Shallow(p)
  {
    set i: nat | i < |p| && Find(p, i) == r
  }

  lemma FlatIsShallow(p: seq<nat>)
    requires Flat(p)
    ensures Shallow(p)
    ensures forall i: nat :: i < |p| ==> Find(p, i) == p[i]
  {
    forall i: nat
      ensures ShallowAt(p, i)
    {
      assert FlatAt(p, i);
    }
    forall i: nat | i < |p|
      ensures Find(p, i) == p[i]
    {
      assert FlatAt(p, i);
    }
  }

  // --- growing -------------------------------------------------------------------------------------

  /** Singletons up to `n`. */
  function Resized(p: seq<nat>, n: nat): seq<nat> {
    if |p| >= n then p else p + seq(n - |p|, k requires 0 <= k => |p| + k)
  }

  lemma ResizedKeeps(p: seq<nat>, n: nat)
    requires Flat(p)
    ensures Flat(Resized(p, n)) && |Resized(p, n)| == if |p| >= n then |p| else n
    ensures Shallow(p) && Shallow(Resized(p, n)) && forall i: nat :: Find(Resized(p, n), i) == Find(p, i)
  {
    var q := Resized(p, n);
    forall i: nat
      ensures FlatAt(q, i)
    {
      assert FlatAt(p, i);
    }
    FlatIsShallow(p);
    FlatIsShallow(q);
  }

  // --- union -----------------------------------------------------------------------------------------

  /** Hangs one root below another. */
  function Linked(p: seq<nat>, child: nat, root: nat): seq<nat>
    requires child < |p|
  {
    p[child := root]
  }

  lemma LinkedJoins(p: seq<nat>, child: nat, root: nat)
    requires Flat(p) && child < |p| && root < |p| && p[child] == child && p[root] == root
    ensures Shallow(p) && Shallow(Linked(p, child, root))
    ensures forall i: nat :: Find(Linked(p, child, root), i) == if Find(p, i) == child then root else Find(p, i)
  {
    FlatIsShallow(p);
    var q := Linked(p, child, root);
    forall i: nat
      ensures ShallowAt(q, i)
    {
      assert FlatAt(p, i);
    }
    forall i: nat
      ensures Find(q, i) == if Find(p, i) == child then root else Find(p, i)
    {
      assert FlatAt(p, i);
    }
  }

  /** Makes one set of two, the larger of which keeps its root. */
  function Union(p: seq<nat>, a: nat, b: nat): seq<nat>
    requires Flat(p)
  {
    var n := if a > b then a + 1 else b + 1;
    ResizedKeeps(p, n);
    var q := Resized(p, n);
    var j, k := Find(q, a), Find(q, b);
    if j == k then q
    else if |Members(q, j)| < |Members(q, k)| then Linked(q, j, k)
    else Linked(q, k, j)
  }

  /** The two sets get one root, which is one of theirs; other numbers keep theirs. */
  lemma UnionJoins(p: seq<nat>, a: nat, b: nat)
    requires Flat(p)
    ensures Shallow(p) && Shallow(Union(p, a, b))
    ensures |Union(p, a, b)| >= |p| && a < |Union(p, a, b)| && b < |Union(p, a, b)|
    ensures
      var root := Find(Union(p, a, b), a);
      && (root == Find(p, a) || root == Find(p, b))
      && forall i: nat ::
           Find(Union(p, a, b), i) == if Find(p, i) == Find(p, a) || Find(p, i) == Find(p, b) then root else Find(p, i)
  {
    var n := if a > b then a + 1 else b + 1;
    ResizedKeeps(p, n);
    var q := Resized(p, n);
    var j, k := Find(q, a), Find(q, b);
    if j != k {
      if |Members(q, j)| < |Members(q, k)| {
        LinkedJoins(q, j, k);
      } else {
        LinkedJoins(q, k, j);
      }
    }
  }

  /** What is left of the forest after looking up every number, as each lookup shortens its path. */
  function Compressed(p: seq<nat>): seq<nat>
    requires Shallow(p)
  {
    seq(|p|, i requires 0 <= i < |p| => Find(p, i))
  }

  lemma CompressedIsFlat(p: seq<nat>)
    requires Shallow(p)
    ensures Flat(Compressed(p)) && Shallow(Compressed(p)) && |Compressed(p)| == |p|
    ensures forall i: nat :: Find(Compressed(p), i) == Find(p, i)
  {
    var q := Compressed(p);
    forall i: nat
      ensures FlatAt(q, i)
    {
      assert ShallowAt(p, i) && ShallowAt(p, Find(p, i));
    }
    FlatIsShallow(q);
  }

  /** The root is that of the larger set, and that of the first one if they are as large as each other. */
  lemma LargerKeepsRoot(p: seq<nat>, a: nat, b: nat)
    requires Flat(p) && Shallow(p) && !SameSet(p, a, b)
    ensures
      var q := Resized(p, if a > b then a + 1 else b + 1);
      && Shallow(q) && Shallow(Union(p, a, b))
      && (Find(Union(p, a, b), a) == Find(p, b) <==> |Members(q, Find(p, a))| < |Members(q, Find(p, b))|)
  {
    UnionJoins(p, a, b);
    ResizedKeeps(p, if a > b then a + 1 else b + 1);
    var q := Resized(p, if a > b then a + 1 else b + 1);
    FlatIsShallow(q);
    LinkedJoins(q, Find(q, a), Find(q, b));
    LinkedJoins(q, Find(q, b), Find(q, a));
  }

  // --- isolating ---------------------------------------------------------------------------------------

  /** Cuts a number that is not a root off its parent. */
  function CutOff(p: seq<nat>, a: nat): seq<nat>
    requires a < |p|
  {
    p[a := a]
  }

  /** That makes it a set of its own exactly if no other number has it as its parent. */
  lemma CutOffIsolatesExactly(p: seq<nat>, a: nat)
    requires Shallow(p) && a < |p| && p[a] != a
    ensures Shallow(CutOff(p, a))
    ensures (forall i: nat :: Find(CutOff(p, a), i) == a ==> i == a) <==>
      (forall i: nat :: i < |p| && p[i] == a ==> i == a)
  {
    var q := CutOff(p, a);
    forall i: nat
      ensures ShallowAt(q, i)
      ensures i < |q| ==> (q[q[i]] == a <==> i == a || p[i] == a)
    {
      assert ShallowAt(p, i) && ShallowAt(p, a);
    }
    forall i: nat
      ensures Find(q, i) == a <==> i == a || (i < |p| && p[i] == a)
    {
    }
  }

  predicate LonelyFrom(p: seq<nat>, a: nat, from: nat) {
    forall i :: from <= i < |p| && p[i] == a ==> i == a
  }

  /** Another member of the set of a root: the first one there is. */
  function GetOther(p: seq<nat>, a: nat, from: nat): (r: nat)
    requires from <= |p| && !LonelyFrom(p, a, from)
    ensures r < |p| && p[r] == a && r != a
    decreases |p| - from
  {
    if from < |p| && p[from] == a && from != a then from else GetOther(p, a, from + 1)
  }

  /** Makes another member the root of a set. */
  function Rerooted(p: seq<nat>, oldRoot: nat, newRoot: nat): seq<nat> {
    seq(|p|, i requires 0 <= i < |p| => if p[i] == oldRoot then newRoot else p[i])
  }

  /** Takes a number out of its set. */
  function Isolated(p: seq<nat>, a: nat): seq<nat> {
    var q := Resized(p, a + 1);
    if q[a] != a then CutOff(q, a)
    else if LonelyFrom(q, a, 0) then q
    else CutOff(Rerooted(q, a, GetOther(q, a, 0)), a)
  }

  /** Three unions of numbers from 0 to 3 leave 3 below 2 below 0; cut off, 2 keeps 3. */
  lemma CutOffLeavesChild()
    ensures Flat([]) && Union([], 0, 1) == [0, 0]
    ensures Flat([0, 0]) && Union([0, 0], 2, 3) == [0, 0, 2, 2]
    ensures Flat([0, 0, 2, 2]) && Union([0, 0, 2, 2], 1, 3) == [0, 0, 0, 2]
    ensures Shallow([0, 0, 0, 2]) && Shallow(CutOff([0, 0, 0, 2], 2)) && SameSet(CutOff([0, 0, 0, 2], 2), 3, 2)
  {
    var p: seq<nat> := [0, 1];
    assert Resized([], 2) == p;
    FlatIsShallow(p);
    assert Members(p, 0) == {0} && Members(p, 1) == {1};
    var q: seq<nat> := [0, 0, 2, 3];
    assert Resized([0, 0], 4) == q;
    FlatIsShallow(q);
    assert Members(q, 2) == {2} && Members(q, 3) == {3};
    var r: seq<nat> := [0, 0, 2, 2];
    FlatIsShallow(r);
    assert Members(r, 0) == {0, 1} && Members(r, 2) == {2, 3};
    assert Resized(r, 4) == r;
    CutOffIsolatesExactly([0, 0, 0, 2], 2);
  }

  lemma IsolatedIsAlone(p: seq<nat>, a: nat)
    requires Flat(p)
    ensures Flat(Isolated(p, a)) && Shallow(p) && Shallow(Isolated(p, a)) && |Isolated(p, a)| >= |p|
    ensures forall i: nat :: Find(Isolated(p, a), i) == a <==> i == a
    ensures forall i: nat, j: nat :: i != a && j != a ==> (SameSet(Isolated(p, a), i, j) <==> SameSet(p, i, j))
  {
    ResizedKeeps(p, a + 1);
    var q := Resized(p, a + 1);
    if q[a] != a {
      CutOffAlone(q, a);
    } else if !LonelyFrom(q, a, 0) {
      var b := GetOther(q, a, 0);
      RerootedStays(q, a, b);
      CutOffAlone(Rerooted(q, a, b), a);
    } else {
      FlatIsShallow(q);
    }
  }

  lemma RerootedStays(p: seq<nat>, a: nat, b: nat)
    requires Flat(p) && a < |p| && b < |p| && p[a] == a && p[b] == a && a != b
    ensures Flat(Rerooted(p, a, b)) && Rerooted(p, a, b)[a] == b
    ensures Shallow(p) && Shallow(Rerooted(p, a, b))
    ensures forall i: nat :: Find(Rerooted(p, a, b), i) == if Find(p, i) == a then b else Find(p, i)
  {
    var q := Rerooted(p, a, b);
    forall i: nat
      ensures FlatAt(q, i)
    {
      assert FlatAt(p, i);
    }
    FlatIsShallow(p);
    FlatIsShallow(q);
  }

  lemma CutOffAlone(p: seq<nat>, a: nat)
    requires Flat(p) && a < |p| && p[a] != a
    ensures Flat(CutOff(p, a)) && Shallow(p) && Shallow(CutOff(p, a))
    ensures forall i: nat :: Find(CutOff(p, a), i) == if i == a then a else Find(p, i)
    ensures forall i: nat :: Find(p, i) != a
  {
    var q := CutOff(p, a);
    forall i: nat
      ensures FlatAt(q, i) && (i < |p| ==> p[i] != a)
    {
      assert FlatAt(p, i);
    }
    FlatIsShallow(p);
    FlatIsShallow(q);
  }

  // --- intersecting --------------------------------------------------------------------------------------

  /** Singletons, of which the first `k` that are not roots in `p` are put with these where `other` agrees. */
  function IntersectedUpTo(p: seq<nat>, other: seq<nat>, k: nat): (r: seq<nat>)
    requires Flat(p) && Flat(other) && k <= |p|
    ensures Flat(r)
  {
    if k == 0 then
      var n := if |p| > |other| then |p| else |other|;
      ResizedKeeps([], n);
      Resized([], n)
    else
      FlatIsShallow(other);
      var r := IntersectedUpTo(p, other, k - 1);
      if p[k - 1] != k - 1 && SameSet(other, k - 1, p[k - 1]) then PutTogether(r, k - 1, p[k - 1]) else r
  }

  function PutTogether(p: seq<nat>, a: nat, b: nat): (r: seq<nat>)
    requires Flat(p)
    ensures Flat(r)
  {
    UnionJoins(p, a, b);
    CompressedIsFlat(Union(p, a, b));
    Compressed(Union(p, a, b))
  }

  lemma PutTogetherJoins(p: seq<nat>, a: nat, b: nat)
    requires Flat(p)
    ensures Shallow(p) && Shallow(PutTogether(p, a, b))
    ensures |PutTogether(p, a, b)| >= |p| && a < |PutTogether(p, a, b)| && b < |PutTogether(p, a, b)|
    ensures
      var root := Find(PutTogether(p, a, b), a);
      && (root == Find(p, a) || root == Find(p, b))
      && forall i: nat :: Find(PutTogether(p, a, b), i) ==
           if Find(p, i) == Find(p, a) || Find(p, i) == Find(p, b) then root else Find(p, i)
  {
    UnionJoins(p, a, b);
    CompressedIsFlat(Union(p, a, b));
  }

  function Intersected(p: seq<nat>, other: seq<nat>): (r: seq<nat>)
    requires Flat(p) && Flat(other)
    ensures Flat(r)
  {
    IntersectedUpTo(p, other, |p|)
  }

  /** The root of a number once it has been put there, and the number itself otherwise. */
  function Key(p: seq<nat>, other: seq<nat>, k: nat, i: nat): nat
    requires Shallow(p) && Shallow(other)
  {
    if i < k && SameSet(other, i, Find(p, i)) then Find(p, i) else i
  }

  /** One more number is put with its root, if the other forest agrees; it was by itself before. */
  lemma KeyStep(p: seq<nat>, other: seq<nat>, k: nat, i: nat)
    requires Flat(p) && Flat(other) && 0 < k <= |p|
    ensures Shallow(p) && Shallow(other)
    ensures
      var a, b := k - 1, p[k - 1];
      && Find(p, a) == b
      && Key(p, other, k, i) == (if i == a && SameSet(other, a, b) then b else Key(p, other, k - 1, i))
      && (b != a ==> (Key(p, other, k - 1, i) == a <==> i == a))
      && Key(p, other, k - 1, b) == b
  {
    FlatIsShallow(p);
    FlatIsShallow(other);
    assert FlatAt(p, k - 1);
  }

  /** Joining the sets with roots `fa` and `fb` is joining what has the keys `a` and `b`. */
  lemma JoinedKeys(fi: nat, fj: nat, fa: nat, fb: nat, root: nat, ki: nat, kj: nat, a: nat, b: nat)
    requires root == fa || root == fb
    requires (fi == fj <==> ki == kj) && (fi == fa <==> ki == a) && (fj == fa <==> kj == a)
    requires (fi == fb <==> ki == b) && (fj == fb <==> kj == b)
    ensures (if fi == fa || fi == fb then root else fi) == (if fj == fa || fj == fb then root else fj) <==>
      (if ki == a then b else ki) == (if kj == a then b else kj)
  {
  }

  /** Numbers are together exactly if they have the same key. */
  ghost predicate KeyedBy(r: seq<nat>, p: seq<nat>, other: seq<nat>, k: nat)
    requires Shallow(p) && Shallow(other)
  {
    Flat(r) && Shallow(r) && forall i: nat, j: nat {:trigger SameSet(r, i, j)} ::
      SameSet(r, i, j) <==> Key(p, other, k, i) == Key(p, other, k, j)
  }

  /** What one number has to do with the two that are put together, by roots and by keys. */
  lemma KeyedNext(r: seq<nat>, p: seq<nat>, other: seq<nat>, k: nat, i: nat)
    requires Flat(p) && Flat(other) && 0 < k <= |p| && Shallow(p) && Shallow(other)
    requires KeyedBy(r, p, other, k - 1) && p[k - 1] != k - 1 && SameSet(other, k - 1, p[k - 1])
    ensures
      var a, b, key := k - 1, p[k - 1], Key(p, other, k - 1, i);
      && (Find(r, i) == Find(r, a) <==> key == a)
      && (Find(r, i) == Find(r, b) <==> key == b)
      && Key(p, other, k, i) == if key == a then b else key
  {
    var a, b := k - 1, p[k - 1];
    KeyStep(p, other, k, i);
    KeyStep(p, other, k, a);
    assert SameSet(r, i, a) <==> Key(p, other, k - 1, i) == Key(p, other, k - 1, a);
    assert SameSet(r, i, b) <==> Key(p, other, k - 1, i) == Key(p, other, k - 1, b);
  }

  /** `q` has the sets of `a` and `b` joined, under one of their roots. */
  ghost predicate JoinedIn(q: seq<nat>, r: seq<nat>, a: nat, b: nat)
    requires Shallow(q) && Shallow(r)
  {
    var root := Find(q, a);
    && (root == Find(r, a) || root == Find(r, b))
    && forall i: nat :: Find(q, i) == if Find(r, i) == Find(r, a) || Find(r, i) == Find(r, b) then root else Find(r, i)
  }

  lemma JoinedIsKeyed(q: seq<nat>, r: seq<nat>, p: seq<nat>, other: seq<nat>, k: nat)
    requires Flat(p) && Flat(other) && 0 < k <= |p| && Shallow(p) && Shallow(other)
    requires KeyedBy(r, p, other, k - 1) && p[k - 1] != k - 1 && SameSet(other, k - 1, p[k - 1])
    requires Flat(q) && Shallow(q) && JoinedIn(q, r, k - 1, p[k - 1])
    ensures KeyedBy(q, p, other, k)
  {
    var a, b := k - 1, p[k - 1];
    forall i: nat, j: nat
      ensures SameSet(q, i, j) <==> Key(p, other, k, i) == Key(p, other, k, j)
    {
      KeyedNext(r, p, other, k, i);
      KeyedNext(r, p, other, k, j);
      assert SameSet(r, i, j) <==> Key(p, other, k - 1, i) == Key(p, other, k - 1, j);
      JoinedKeys(Find(r, i), Find(r, j), Find(r, a), Find(r, b), Find(q, a),
                 Key(p, other, k - 1, i), Key(p, other, k - 1, j), a, b);
    }
  }

  lemma PutTogetherKeyed(r: seq<nat>, p: seq<nat>, other: seq<nat>, k: nat)
    requires Flat(p) && Flat(other) && 0 < k <= |p| && Shallow(p) && Shallow(other)
    requires KeyedBy(r, p, other, k - 1) && p[k - 1] != k - 1 && SameSet(other, k - 1, p[k - 1])
    ensures KeyedBy(PutTogether(r, k - 1, p[k - 1]), p, other, k)
  {
    PutTogetherJoins(r, k - 1, p[k - 1]);
    JoinedIsKeyed(PutTogether(r, k - 1, p[k - 1]), r, p, other, k);
  }

  lemma NotPutTogetherKeyed(r: seq<nat>, p: seq<nat>, other: seq<nat>, k: nat)
    requires Flat(p) && Flat(other) && 0 < k <= |p| && Shallow(p) && Shallow(other)
    requires KeyedBy(r, p, other, k - 1) && (p[k - 1] == k - 1 || !SameSet(other, k - 1, p[k - 1]))
    ensures KeyedBy(r, p, other, k)
  {
    forall i: nat
      ensures Key(p, other, k, i) == Key(p, other, k - 1, i)
    {
      KeyStep(p, other, k, i);
    }
  }

  lemma {:induction false} IntersectedIs(p: seq<nat>, other: seq<nat>, k: nat)
    requires Flat(p) && Flat(other) && k <= |p|
    ensures Shallow(p) && Shallow(other) && KeyedBy(IntersectedUpTo(p, other, k), p, other, k)
  {
    FlatIsShallow(p);
    FlatIsShallow(other);
    if k == 0 {
      var n := if |p| > |other| then |p| else |other|;
      ResizedKeeps([], n);
    } else {
      IntersectedIs(p, other, k - 1);
      var r := IntersectedUpTo(p, other, k - 1);
      if p[k - 1] != k - 1 && SameSet(other, k - 1, p[k - 1]) {
        PutTogetherKeyed(r, p, other, k);
      } else {
        NotPutTogetherKeyed(r, p, other, k);
      }
    }
  }

  lemma IntersectionIs(p: seq<nat>, other: seq<nat>, i: nat, j: nat)
    requires Flat(p) && Flat(other)
    ensures Shallow(p) && Shallow(other) && Shallow(Intersected(p, other))
    ensures SameSet(Intersected(p, other), i, j) <==>
      i == j || (SameSet(p, i, j) && SameSet(other, i, Find(p, i)) && SameSet(other, j, Find(p, j)))
  {
    IntersectedIs(p, other, |p|);
  }

  /**
   What the intersection keeps together was together in both, but not the other way round: it is the
   meet of the two partitions exactly if numbers that are together in both are there with their root.
   */
  lemma IntersectionIsMeetExactly(p: seq<nat>, other: seq<nat>)
    requires Flat(p) && Flat(other)
    ensures Shallow(p) && Shallow(other) && Shallow(Intersected(p, other))
    ensures forall i: nat, j: nat :: SameSet(Intersected(p, other), i, j) ==> SameSet(p, i, j) && SameSet(other, i, j)
    ensures
      (forall i: nat, j: nat :: SameSet(p, i, j) && SameSet(other, i, j) ==> SameSet(Intersected(p, other), i, j)) <==>
      (forall i: nat, j: nat :: i != j && SameSet(p, i, j) && SameSet(other, i, j) ==> SameSet(other, i, Find(p, i)))
  {
    FlatIsShallow(p);
    FlatIsShallow(other);
    FlatIsShallow(Intersected(p, other));
    forall i: nat, j: nat
      ensures SameSet(Intersected(p, other), i, j) <==>
        i == j || (SameSet(p, i, j) && SameSet(other, i, Find(p, i)) && SameSet(other, j, Find(p, j)))
    {
      IntersectionIs(p, other, i, j);
    }
  }

  /** Three numbers together in one forest, the last two of them in the other: they are parted. */
  lemma IntersectionCanBeFiner()
    ensures Flat([0, 0, 0]) && Flat([0, 1, 1])
    ensures Shallow([0, 0, 0]) && Shallow([0, 1, 1]) && Shallow(Intersected([0, 0, 0], [0, 1, 1]))
    ensures SameSet([0, 0, 0], 1, 2) && SameSet([0, 1, 1], 1, 2) && !SameSet(Intersected([0, 0, 0], [0, 1, 1]), 1, 2)
  {
    IntersectionIs([0, 0, 0], [0, 1, 1], 1, 2);
  }

  // --- counting roots ------------------------------------------------------------------------------------

  function RootsUpTo(p: seq<nat>, k: nat): (n: nat)
    requires k <= |p|
    ensures n <= k
  {
    if k == 0 then 0 else RootsUpTo(p, k - 1) + if p[k - 1] == k - 1 then 1 else 0
  }

  function CountRoots(p: seq<nat>): nat {
    RootsUpTo(p, |p|)
  }

  lemma {:induction false} LinkedCounts(p: seq<nat>, child: nat, root: nat, k: nat)
    requires child < |p| && p[child] == child && root != child && k <= |p|
    ensures RootsUpTo(Linked(p, child, root), k) + (if child < k then 1 else 0) == RootsUpTo(p, k)
  {
    if k > 0 {
      LinkedCounts(p, child, root, k - 1);
    }
  }

  lemma {:induction false} SameRootsCount(p: seq<nat>, q: seq<nat>, k: nat)
    requires k <= |p| && k <= |q|
    requires forall i :: 0 <= i < k ==> (p[i] == i <==> q[i] == i)
    ensures RootsUpTo(p, k) == RootsUpTo(q, k)
  {
    if k > 0 {
      SameRootsCount(p, q, k - 1);
    }
  }

  lemma {:induction false} AllRootsCount(p: seq<nat>, k: nat)
    requires k <= |p| && forall i :: 0 <= i < k ==> p[i] == i
    ensures RootsUpTo(p, k) == k
  {
    if k > 0 {
      AllRootsCount(p, k - 1);
    }
  }

  /** Putting two sets together makes one root of two. */
  lemma PutTogetherCounts(p: seq<nat>, a: nat, b: nat)
    requires Flat(p) && Shallow(p) && a < |p| && b < |p| && !SameSet(p, a, b)
    ensures |PutTogether(p, a, b)| == |p| && CountRoots(PutTogether(p, a, b)) + 1 == CountRoots(p)
  {
    FlatIsShallow(p);
    var n := if a > b then a + 1 else b + 1;
    assert Resized(p, n) == p;
    var j, k := Find(p, a), Find(p, b);
    LinkedJoins(p, j, k);
    LinkedJoins(p, k, j);
    LinkedCounts(p, j, k, |p|);
    LinkedCounts(p, k, j, |p|);
    var u := Union(p, a, b);
    forall i | 0 <= i < |u|
      ensures u[i] == i <==> Compressed(u)[i] == i
    {
      assert ShallowAt(u, i);
      assert Compressed(u)[i] == Find(u, i);
    }
    SameRootsCount(u, Compressed(u), |u|);
  }

  /** How many of the first `k` numbers are put with their roots. */
  function Links(p: seq<nat>, other: seq<nat>, k: nat): nat
    requires k <= |p| && Shallow(other)
  {
    if k == 0 then 0
    else Links(p, other, k - 1) + if p[k - 1] != k - 1 && SameSet(other, k - 1, p[k - 1]) then 1 else 0
  }

  /** A number has not been put with its root before it is looked at. */
  lemma NotYetTogether(p: seq<nat>, other: seq<nat>, k: nat)
    requires Flat(p) && Flat(other) && 0 < k <= |p| && p[k - 1] != k - 1
    ensures p[k - 1] < |p| && Shallow(IntersectedUpTo(p, other, k - 1))
    ensures !SameSet(IntersectedUpTo(p, other, k - 1), k - 1, p[k - 1])
  {
    assert FlatAt(p, k - 1);
    IntersectedIs(p, other, k - 1);
    KeyStep(p, other, k, k - 1);
  }

  /** All but `links` of `n` numbers are roots. */
  ghost predicate Counted(r: seq<nat>, n: nat, links: nat) {
    |r| == n && CountRoots(r) + links == n
  }

  /** So it is when the first `k` numbers have been looked at. */
  ghost predicate CountedUpTo(p: seq<nat>, other: seq<nat>, k: nat)
    requires Flat(p) && Flat(other) && k <= |p| && Shallow(other)
  {
    Counted(IntersectedUpTo(p, other, k), if |p| > |other| then |p| else |other|, Links(p, other, k))
  }

  lemma StartCounts(p: seq<nat>, other: seq<nat>)
    requires Flat(p) && Flat(other) && Shallow(other)
    ensures CountedUpTo(p, other, 0)
  {
    var n := if |p| > |other| then |p| else |other|;
    AllRootsCount(Resized([], n), n);
  }

  /** Each link costs a root. */
  lemma LinkCounts(r: seq<nat>, n: nat, links: nat, a: nat, b: nat)
    requires Counted(r, n, links) && Flat(r) && Shallow(r) && a < |r| && b < |r| && !SameSet(r, a, b)
    ensures Counted(PutTogether(r, a, b), n, links + 1)
  {
    PutTogetherCounts(r, a, b);
  }

  lemma CountedNext(p: seq<nat>, other: seq<nat>, k: nat)
    requires Flat(p) && Flat(other) && 0 < k <= |p| && Shallow(other) && CountedUpTo(p, other, k - 1)
    ensures CountedUpTo(p, other, k)
  {
    if p[k - 1] != k - 1 && SameSet(other, k - 1, p[k - 1]) {
      var r, n := IntersectedUpTo(p, other, k - 1), if |p| > |other| then |p| else |other|;
      NotYetTogether(p, other, k);
      LinkCounts(r, n, Links(p, other, k - 1), k - 1, p[k - 1]);
      assert IntersectedUpTo(p, other, k) == PutTogether(r, k - 1, p[k - 1]);
    }
  }

  lemma IntersectedCounts(p: seq<nat>, other: seq<nat>)
    requires Flat(p) && Flat(other) && Shallow(other)
    ensures CountedUpTo(p, other, |p|)
  {
    hide *;
    StartCounts(p, other);
    for k := 0 to |p|
      invariant CountedUpTo(p, other, k)
    {
      CountedNext(p, other, k + 1);
    }
  }

  lemma {:induction false} LinksAreSome(p: seq<nat>, other: seq<nat>, k: nat, i: nat)
    requires k <= |p| && Shallow(other)
    ensures Links(p, other, k) + RootsUpTo(p, k) <= k
    ensures Links(p, other, k) + RootsUpTo(p, k) == k && i < k && p[i] != i ==> SameSet(other, i, p[i])
  {
    if k > 0 {
      LinksAreSome(p, other, k - 1, i);
    }
  }

  /** If the intersection has as many roots as before, it has parted nothing. */
  lemma SameRootsSameSets(p: seq<nat>, other: seq<nat>)
    requires Flat(p) && Flat(other) && CountRoots(Intersected(p, other)) == CountRoots(p)
    ensures Shallow(p) && Shallow(Intersected(p, other))
    ensures forall i: nat, j: nat :: SameSet(p, i, j) ==> SameSet(Intersected(p, other), i, j)
  {
    FlatIsShallow(p);
    FlatIsShallow(other);
    FlatIsShallow(Intersected(p, other));
    IntersectedCounts(p, other);
    LinksAreSome(p, other, |p|, 0);
    forall i: nat
      ensures SameSet(other, i, Find(p, i))
    {
      LinksAreSome(p, other, |p|, i);
    }
    forall i: nat, j: nat | SameSet(p, i, j)
      ensures SameSet(Intersected(p, other), i, j)
    {
      IntersectionIs(p, other, i, j);
    }
  }
}
