/**
 Invariants at a program location: equalities, inequalities, disequalities and bounds of integer
 objects, which a condition strengthens, a join weakens and an assignment carries over.
 */
module InvariantSet {
  import opened Options
  import opened ThreeValued
  import opened UnionFind
  import opened Conditions

  // --- objects -----------------------------------------------------------------------------------

  /** The numbers the object store gives to all constants and to the variables it tracks, and their signs. */
  datatype Numbering = Numbering(number: Object -> Option<nat>, objectAt: nat -> Object, unsigned: string -> bool) {

    /** One number per object, and one for every constant. */
    ghost predicate Valid() {
      && (forall n: nat :: number(objectAt(n)) == Some(n))
      && (forall o :: number(o).Some? ==> objectAt(number(o).value) == o)
      && (forall i :: number(Number(i)).Some?)
    }

    function ValueOf(n: nat, v: Valuation): int {
      ObjectValue(objectAt(n), v)
    }
  }

  predicate Typed(nb: Numbering, o: Object, v: Valuation) {
    o.Variable? && nb.unsigned(o.name) ==> v.vars(o.name) >= 0
  }

  /** Unsigned variables are not negative. */
  ghost predicate WellTyped(nb: Numbering, v: Valuation) {
    forall n: nat :: Typed(nb, nb.objectAt(n), v)
  }

  /** The number of an expression, if it has one. */
  function GetObject(nb: Numbering, t: Term): Option<nat> {
    match t
    case Obj(o) => nb.number(o)
    case Other(_) => None
  }

  lemma ObjectHasValue(nb: Numbering, t: Term, v: Valuation)
    requires nb.Valid() && GetObject(nb, t).Some?
    ensures nb.ValueOf(GetObject(nb, t).value, v) == TermValue(t, v)
  {
  }

  function NumericCast(t: Term): Option<int> {
    if t.Obj? && t.obj.Number? then Some(t.obj.value) else None
  }

  // --- intervals -------------------------------------------------------------------------------------

  datatype Interval = Interval(lower: Option<int>, upper: Option<int>)

  predicate In(i: Interval, x: int) {
    (i.lower.Some? ==> i.lower.value <= x) && (i.upper.Some? ==> x <= i.upper.value)
  }

  const TOP := Interval(None, None)

  function Singleton(x: int): Interval {
    Interval(Some(x), Some(x))
  }

  function IntersectWith(a: Interval, b: Interval): (r: Interval)
    ensures forall x :: In(r, x) <==> In(a, x) && In(b, x)
  {
    Interval(
      if b.lower.None? then a.lower
      else if a.lower.None? || a.lower.value < b.lower.value then b.lower else a.lower,
      if b.upper.None? then a.upper
      else if a.upper.None? || b.upper.value < a.upper.value then b.upper else a.upper)
  }

  function ApproxUnionWith(a: Interval, b: Interval): (r: Interval)
    ensures forall x :: In(a, x) || In(b, x) ==> In(r, x)
  {
    Interval(
      if a.lower.None? || b.lower.None? then None
      else if b.lower.value < a.lower.value then b.lower else a.lower,
      if a.upper.None? || b.upper.None? then None
      else if a.upper.value < b.upper.value then b.upper else a.upper)
  }

  function LessEqual(a: Interval, b: Interval): (r: Tvt)
    ensures forall x, y :: In(a, x) && In(b, y) ==> (r.TvTrue? ==> x <= y) && (r.TvFalse? ==> x > y)
  {
    if a.upper.Some? && b.lower.Some? && a.upper.value <= b.lower.value then TvTrue
    else if a.lower.Some? && b.upper.Some? && a.lower.value > b.upper.value then TvFalse
    else TvUnknown
  }

  function LessThan(a: Interval, b: Interval): (r: Tvt)
    ensures forall x, y :: In(a, x) && In(b, y) ==> (r.TvTrue? ==> x < y) && (r.TvFalse? ==> x >= y)
  {
    TvNot(LessEqual(b, a))
  }

  /** The interval has bounds at least as tight as the other one. */
  predicate Tighter(i: Interval, j: Interval) {
    && (j.lower.Some? ==> i.lower.Some? && j.lower.value <= i.lower.value)
    && (j.upper.Some? ==> i.upper.Some? && i.upper.value <= j.upper.value)
  }

  predicate NonEmpty(i: Interval) {
    i.lower.Some? && i.upper.Some? ==> i.lower.value <= i.upper.value
  }

  /** A value of the interval on the far side of a number, if the interval goes there. */
  function AtMost(i: Interval, x: int): (r: int)
    requires NonEmpty(i)
    ensures In(i, r) && (r <= x || i.lower == Some(r))
  {
    if i.lower.Some? then i.lower.value else if i.upper.Some? && i.upper.value < x then i.upper.value else x
  }

  function AtLeast(i: Interval, x: int): (r: int)
    requires NonEmpty(i)
    ensures In(i, r) && (r >= x || i.upper == Some(r))
  {
    if i.upper.Some? then i.upper.value else if i.lower.Some? && i.lower.value > x then i.lower.value else x
  }

  /** If it has any values, that is to say that they are all in the other one. */
  lemma TighterMeans(i: Interval, j: Interval)
    requires NonEmpty(i)
    ensures Tighter(i, j) <==> forall x :: In(i, x) ==> In(j, x)
  {
    if forall x :: In(i, x) ==> In(j, x) {
      if j.lower.Some? {
        assert In(j, AtMost(i, j.lower.value - 1));
      }
      if j.upper.Some? {
        assert In(j, AtLeast(i, j.upper.value + 1));
      }
    }
  }

  /** The join of two intervals has both, and no wider bounds than any other that has both. */
  lemma UnionIsLeast(a: Interval, b: Interval, j: Interval)
    ensures Tighter(a, ApproxUnionWith(a, b)) && Tighter(b, ApproxUnionWith(a, b))
    ensures Tighter(a, j) && Tighter(b, j) ==> Tighter(ApproxUnionWith(a, b), j)
  {
  }

  ghost predicate AllUpTo(a: Interval, b: Interval) {
    forall x, y :: In(a, x) && In(b, y) ==> x <= y
  }

  ghost predicate AllAbove(a: Interval, b: Interval) {
    forall x, y :: In(a, x) && In(b, y) ==> x > y
  }

  /** The comparison of intervals answers whenever it is the same for all their values. */
  lemma LessEqualExactly(a: Interval, b: Interval)
    requires NonEmpty(a) && NonEmpty(b)
    ensures LessEqual(a, b).TvTrue? <==> AllUpTo(a, b)
    ensures LessEqual(a, b).TvFalse? <==> AllAbove(a, b)
  {
    var high := AtLeast(a, AtMost(b, 0) + 1);
    assert In(a, high) && In(b, AtMost(b, high - 1));
    var low := AtMost(a, AtLeast(b, 0));
    assert In(a, low) && In(b, AtLeast(b, low));
  }

  // --- states ----------------------------------------------------------------------------------------

  type Pair = (nat, nat)

  datatype Inv = Inv(
    eq: seq<nat>, le: set<Pair>, ne: set<Pair>, bounds: map<nat, Interval>, threaded: bool, isFalse: bool)

  ghost predicate EqHolds(nb: Numbering, eq: seq<nat>, v: Valuation)
    requires Shallow(eq)
  {
    forall i: nat, j: nat :: SameSet(eq, i, j) ==> nb.ValueOf(i, v) == nb.ValueOf(j, v)
  }

  ghost predicate LeHolds(nb: Numbering, le: set<Pair>, v: Valuation) {
    forall p :: p in le ==> nb.ValueOf(p.0, v) <= nb.ValueOf(p.1, v)
  }

  ghost predicate NeHolds(nb: Numbering, ne: set<Pair>, v: Valuation) {
    forall p :: p in ne ==> nb.ValueOf(p.0, v) != nb.ValueOf(p.1, v)
  }

  ghost predicate BoundsHold(nb: Numbering, bounds: map<nat, Interval>, v: Valuation) {
    forall n :: n in bounds ==> In(bounds[n], nb.ValueOf(n, v))
  }

  /** The valuation is one the state allows. */
  ghost predicate Holds(nb: Numbering, s: Inv, v: Valuation) {
    && !s.isFalse && Shallow(s.eq)
    && EqHolds(nb, s.eq, v) && LeHolds(nb, s.le, v) && NeHolds(nb, s.ne, v) && BoundsHold(nb, s.bounds, v)
  }

  // --- queries ---------------------------------------------------------------------------------------

  function Swap(p: Pair): Pair {
    (p.1, p.0)
  }

  function HasEq(s: Inv, p: Pair): bool
    requires Shallow(s.eq)
  {
    SameSet(s.eq, p.0, p.1)
  }

  function IsEq(s: Inv, p: Pair): Tvt
    requires Shallow(s.eq)
  {
    if HasEq(s, p) then TvTrue
    else if p in s.ne || Swap(p) in s.ne then TvFalse
    else TvUnknown
  }

  function IsLe(s: Inv, p: Pair): Tvt
    requires Shallow(s.eq)
  {
    if HasEq(s, p) then TvTrue
    else if p in s.le then TvTrue
    else if Swap(p) in s.le && (Swap(p) in s.ne || p in s.ne) then TvFalse
    else TvUnknown
  }

  function IsLt(s: Inv, p: Pair): Tvt
    requires Shallow(s.eq)
  {
    TvAnd(IsLe(s, p), TvNot(IsEq(s, p)))
  }

  function GetBounds(nb: Numbering, s: Inv, n: nat): Interval {
    match nb.objectAt(n)
    case Number(value) => Singleton(value)
    case Variable(name) =>
      if n in s.bounds then s.bounds[n]
      else if nb.unsigned(name) then Interval(Some(0), None)
      else TOP
  }

  lemma BoundsAreSound(nb: Numbering, s: Inv, n: nat, v: Valuation)
    requires Holds(nb, s, v) && WellTyped(nb, v)
    ensures In(GetBounds(nb, s, n), nb.ValueOf(n, v))
  {
    assert Typed(nb, nb.objectAt(n), v);
  }

  function Comparison(c: Cond): Option<(Term, Term)> {
    match c
    case Le(a, b) => Some((a, b))
    case Lt(a, b) => Some((a, b))
    case Equal(a, b) => Some((a, b))
    case NotEqual(a, b) => Some((a, b))
    case _ => None
  }

  /** Whether a comparison of two objects follows. */
  function ImpliesPair(nb: Numbering, s: Inv, c: Cond, p: Pair): Tvt
    requires Shallow(s.eq)
  {
    match c
    case Le(_, _) =>
      var r := IsLe(s, p);
      if !r.TvUnknown? then r else LessEqual(GetBounds(nb, s, p.0), GetBounds(nb, s, p.1))
    case Lt(_, _) =>
      var r := IsLt(s, p);
      if !r.TvUnknown? then r else LessThan(GetBounds(nb, s, p.0), GetBounds(nb, s, p.1))
    case Equal(_, _) => IsEq(s, p)
    case NotEqual(_, _) => TvNot(IsEq(s, p))
    case _ => TvUnknown
  }

  /** Whether a condition in normal form follows from the state. */
  function ImpliesRec(nb: Numbering, s: Inv, c: Cond): Tvt
    requires Shallow(s.eq)
  {
    if s.isFalse then TvTrue
    else
      match c
      case Const(value) => if value then TvTrue else TvUnknown
      case And(ops) =>
        if forall i :: 0 <= i < |ops| ==> ImpliesRec(nb, s, ops[i]).TvTrue? then TvTrue else TvUnknown
      case Or(ops) =>
        if exists i :: 0 <= i < |ops| && ImpliesRec(nb, s, ops[i]).TvTrue? then TvTrue else TvUnknown
      case _ =>
        if Comparison(c).None? then TvUnknown
        else
          var a, b := GetObject(nb, Comparison(c).value.0), GetObject(nb, Comparison(c).value.1);
          if a.None? || b.None? then TvUnknown else ImpliesPair(nb, s, c, (a.value, b.value))
  }

  function Implies(nb: Numbering, s: Inv, c: Cond): Tvt
    requires Shallow(s.eq)
  {
    ImpliesRec(nb, s, Nnf(c, false))
  }

  lemma PairIsSound(nb: Numbering, s: Inv, c: Cond, a: nat, b: nat, v: Valuation)
    requires nb.Valid() && Holds(nb, s, v) && WellTyped(nb, v) && Comparison(c).Some?
    requires GetObject(nb, Comparison(c).value.0) == Some(a) && GetObject(nb, Comparison(c).value.1) == Some(b)
    ensures ImpliesPair(nb, s, c, (a, b)).TvTrue? ==> Eval(c, v)
    ensures ImpliesPair(nb, s, c, (a, b)).TvFalse? ==> !Eval(c, v)
  {
    ObjectHasValue(nb, Comparison(c).value.0, v);
    ObjectHasValue(nb, Comparison(c).value.1, v);
    BoundsAreSound(nb, s, a, v);
    BoundsAreSound(nb, s, b, v);
  }

  lemma {:induction false} ImpliesRecIsSound(nb: Numbering, s: Inv, c: Cond, v: Valuation)
    requires nb.Valid() && Holds(nb, s, v) && WellTyped(nb, v)
    ensures ImpliesRec(nb, s, c).TvTrue? ==> Eval(c, v)
    ensures ImpliesRec(nb, s, c).TvFalse? ==> !Eval(c, v)
  {
    if Comparison(c).Some? {
      var a, b := GetObject(nb, Comparison(c).value.0), GetObject(nb, Comparison(c).value.1);
      if a.Some? && b.Some? {
        PairIsSound(nb, s, c, a.value, b.value, v);
      }
    } else if c.And? || c.Or? {
      forall i | 0 <= i < |c.ops|
        ensures ImpliesRec(nb, s, c.ops[i]).TvTrue? ==> Eval(c.ops[i], v)
      {
        ImpliesRecIsSound(nb, s, c.ops[i], v);
      }
    }
  }

  /** What follows is true, and what is refuted is false, in every valuation the state allows. */
  lemma ImpliesIsSound(nb: Numbering, s: Inv, c: Cond, v: Valuation)
    requires nb.Valid() && Holds(nb, s, v) && WellTyped(nb, v)
    ensures Implies(nb, s, c).TvTrue? ==> Eval(c, v)
    ensures Implies(nb, s, c).TvFalse? ==> !Eval(c, v)
  {
    ImpliesRecIsSound(nb, s, Nnf(c, false), v);
    NnfKeepsMeaning(c, false, v);
  }

  // --- what strengthening may do ---------------------------------------------------------------------

  /** The condition says nothing the state cannot hold: conjunctions of comparisons of objects. */
  predicate Exact(nb: Numbering, c: Cond) {
    match c
    case Const(_) => true
    case And(ops) => forall i :: 0 <= i < |ops| ==> Exact(nb, ops[i])
    case _ =>
      Comparison(c).Some? && GetObject(nb, Comparison(c).value.0).Some? && GetObject(nb, Comparison(c).value.1).Some?
  }

  /** No valuation with the condition is lost and none is won; without it, all are if the condition is exact. */
  ghost predicate Strengthened(nb: Numbering, before: Inv, after: Inv, c: Cond, v: Valuation) {
    && (Holds(nb, before, v) && Eval(c, v) ==> Holds(nb, after, v))
    && (Holds(nb, after, v) ==> Holds(nb, before, v))
    && (Exact(nb, c) && Holds(nb, after, v) ==> Eval(c, v))
  }

  ghost predicate AllStrengthened(nb: Numbering, before: Inv, after: Inv, c: Cond) {
    forall v :: Strengthened(nb, before, after, c, v)
  }

  // --- adding pairs ----------------------------------------------------------------------------------

  /** Everything equal to the one related to everything equal to the other. */
  ghost function AllPairs(eq: seq<nat>, p: Pair): set<Pair>
    requires Shallow(eq)
  {
    set f: nat, s: nat | f < |eq| && s < |eq| && SameSet(eq, f, p.0) && SameSet(eq, s, p.1) :: (f, s)
  }

  method AddPairs(eq: seq<nat>, p: Pair, dest: set<Pair>) returns (r: set<Pair>)
    requires Shallow(eq)
    ensures r == dest + AllPairs(eq, p)
  {
    r := dest;
    var fr, sr := Find(eq, p.0), Find(eq, p.1);
    for f := 0 to |eq|
      invariant forall q: Pair :: q in r <==> q in dest || (q in AllPairs(eq, p) && q.0 < f)
    {
      if Find(eq, f) == fr {
        for s := 0 to |eq|
          invariant forall q: Pair :: q in r <==>
            q in dest || (q in AllPairs(eq, p) && (q.0 < f || (q.0 == f && q.1 < s)))
        {
          if Find(eq, s) == sr {
            r := r + {(f, s)};
          }
        }
      }
    }
  }

  lemma PairsFollow(nb: Numbering, eq: seq<nat>, p: Pair, v: Valuation)
    requires Shallow(eq) && EqHolds(nb, eq, v) && p.0 < |eq| && p.1 < |eq|
    ensures p in AllPairs(eq, p)
    ensures forall q :: q in AllPairs(eq, p) ==>
      nb.ValueOf(q.0, v) == nb.ValueOf(p.0, v) && nb.ValueOf(q.1, v) == nb.ValueOf(p.1, v)
  {
    assert SameSet(eq, p.0, p.0) && SameSet(eq, p.1, p.1);
  }

  // --- replicating pairs over a new equality -----------------------------------------------------------

  predicate PairLess(a: Pair, b: Pair) {
    a.0 < b.0 || (a.0 == b.0 && a.1 < b.1)
  }

  /** The pairs an equality makes of one pair. */
  function Variants(e: Pair, p: Pair): set<Pair> {
    (if e.0 == p.0 then {(e.1, p.1)} else {})
    + (if e.0 == p.1 then {(p.0, e.1)} else {})
    + (if e.1 == p.0 then {(e.0, p.1)} else {})
    + (if e.1 == p.1 then {(p.0, e.0)} else {})
  }

  predicate Exchanged(e: Pair, m: nat, n: nat) {
    (m == e.0 && n == e.1) || (m == e.1 && n == e.0)
  }

  /** They are the pair with one of its numbers exchanged for the one it is equal to. */
  lemma VariantsExactly(e: Pair, p: Pair, q: Pair)
    ensures q in Variants(e, p) <==>
      (q.1 == p.1 && Exchanged(e, p.0, q.0)) || (q.0 == p.0 && Exchanged(e, p.1, q.1))
  {
  }

  /** The pair holds if the equality and all pairs of `dest` do. */
  ghost predicate Derived(e: Pair, dest: set<Pair>, q: Pair) {
    exists p :: p in dest && Linked2(e, p.0, q.0) && Linked2(e, p.1, q.1)
  }

  predicate Linked2(e: Pair, a: nat, b: nat) {
    a == b || (a == e.0 && b == e.1) || (a == e.1 && b == e.0)
  }

  lemma VariantsDerived(e: Pair, dest: set<Pair>, p: Pair)
    requires Derived(e, dest, p)
    ensures forall q :: q in Variants(e, p) ==> Derived(e, dest, q)
  {
    var o :| o in dest && Linked2(e, o.0, p.0) && Linked2(e, o.1, p.1);
    forall q | q in Variants(e, p)
      ensures Derived(e, dest, q)
    {
      assert Linked2(e, o.0, q.0) && Linked2(e, o.1, q.1);
    }
  }

  lemma {:induction false} LeastExists(s: set<Pair>)
    requires s != {}
    ensures exists p :: p in s && forall q :: q in s ==> !PairLess(q, p)
    decreases |s|
  {
    var x :| x in s;
    if s == {x} {
      assert x in s && forall q :: q in s ==> !PairLess(q, x);
    } else {
      LeastExists(s - {x});
      var p :| p in s - {x} && forall q :: q in s - {x} ==> !PairLess(q, p);
      var least := if PairLess(x, p) then x else p;
      forall q | q in s
        ensures !PairLess(q, least)
      {
        assert q == x || q in s - {x};
      }
      assert least in s;
    }
  }

  /** All pairs over the numbers of some pairs and of the equality. */
  ghost function PairUniverse(e: Pair, dest: set<Pair>): set<Pair> {
    var ns := {e.0, e.1} + (set p | p in dest :: p.0) + (set p | p in dest :: p.1);
    set a, b | a in ns && b in ns :: (a, b)
  }

  lemma DerivedInUniverse(e: Pair, dest: set<Pair>, q: Pair)
    requires Derived(e, dest, q)
    ensures q in PairUniverse(e, dest)
  {
    var p :| p in dest && Linked2(e, p.0, q.0) && Linked2(e, p.1, q.1);
    assert p.0 in (set p | p in dest :: p.0) && p.1 in (set p | p in dest :: p.1);
  }

  /**
   Walks an ordered set and inserts the variants of each pair into the same set; those that come
   behind the walk are walked over as well.
   */
  method Replicate(e: Pair, dest: set<Pair>) returns (r: set<Pair>)
    ensures dest <= r
    ensures AllDerived(e, dest, r)
    ensures forall p :: p in dest ==> Variants(e, p) <= r
  {
    r := dest;
    var todo := dest;
    ghost var universe := PairUniverse(e, dest);
    ReplicateStarts(e, dest);
    while todo != {}
      invariant ReplicateSoFar(e, dest, todo, r) && r <= universe
      decreases universe - r, |todo|
    {
      todo, r := ReplicateNext(e, dest, todo, r, universe);
    }
  }

  /** Inserts the variants of the next pair. */
  method ReplicateNext(e: Pair, ghost dest: set<Pair>, todo: set<Pair>, r: set<Pair>, ghost universe: set<Pair>)
    returns (todo': set<Pair>, r': set<Pair>)
    requires ReplicateSoFar(e, dest, todo, r) && r <= universe && todo != {}
    requires forall q :: Derived(e, dest, q) ==> q in universe
    ensures ReplicateSoFar(e, dest, todo', r') && r' <= universe
    ensures universe - r' < universe - r || (r' == r && |todo'| < |todo|)
  {
    var p := Least(todo);
    var added := Variants(e, p) - r;
    ReplicateStep(e, dest, todo, r, p, added);
    if added == {} {
      todo', r' := todo - {p}, r;
    } else {
      Shrinks(universe, r, added);
      todo', r' := todo - {p} + Behind(added, p), r + added;
    }
  }

  function Least(s: set<Pair>): (p: Pair)
    requires s != {}
    ensures p in s && forall q :: q in s ==> !PairLess(q, p)
  {
    LeastExists(s);
    var p :| p in s && forall q :: q in s ==> !PairLess(q, p);
    p
  }

  function Behind(s: set<Pair>, p: Pair): (r: set<Pair>)
    ensures r <= s
  {
    set q | q in s && PairLess(p, q)
  }

  ghost predicate AllDerived(e: Pair, dest: set<Pair>, r: set<Pair>) {
    forall q :: q in r ==> Derived(e, dest, q)
  }

  /** All pairs are derived, and those of the start that are done have their variants. */
  ghost predicate ReplicateSoFar(e: Pair, dest: set<Pair>, todo: set<Pair>, r: set<Pair>) {
    dest <= r && todo <= r && AllDerived(e, dest, r) && forall p :: p in dest - todo ==> Variants(e, p) <= r
  }

  lemma ReplicateStarts(e: Pair, dest: set<Pair>)
    ensures ReplicateSoFar(e, dest, dest, dest) && dest <= PairUniverse(e, dest)
    ensures forall q :: Derived(e, dest, q) ==> q in PairUniverse(e, dest)
  {
    forall q | Derived(e, dest, q)
      ensures q in PairUniverse(e, dest)
    {
      DerivedInUniverse(e, dest, q);
    }
    forall p | p in dest
      ensures Derived(e, dest, p)
    {
      assert Linked2(e, p.0, p.0) && Linked2(e, p.1, p.1);
    }
  }

  lemma ReplicateStep(e: Pair, dest: set<Pair>, todo: set<Pair>, r: set<Pair>, p: Pair, added: set<Pair>)
    requires ReplicateSoFar(e, dest, todo, r) && p in todo && added == Variants(e, p) - r
    ensures AllDerived(e, dest, added)
    ensures ReplicateSoFar(e, dest, todo - {p} + Behind(added, p), r + added)
    ensures added == {} ==> ReplicateSoFar(e, dest, todo - {p}, r)
  {
    VariantsDerived(e, dest, p);
    forall q | q in dest - (todo - {p})
      ensures Variants(e, q) <= r + added
    {
      if q != p {
        assert q in dest - todo;
      }
    }
    if added == {} {
      assert r + added == r;
    }
  }

  /** Something new makes what is left smaller. */
  lemma Shrinks(universe: set<Pair>, r: set<Pair>, added: set<Pair>)
    requires added <= universe && added !! r && added != {}
    ensures universe - (r + added) < universe - r
  {
    var q :| q in added;
    assert q in universe - r && q !in universe - (r + added);
  }

  lemma ReplicatedLeHolds(nb: Numbering, e: Pair, dest: set<Pair>, r: set<Pair>, v: Valuation)
    requires AllDerived(e, dest, r)
    requires LeHolds(nb, dest, v) && nb.ValueOf(e.0, v) == nb.ValueOf(e.1, v)
    ensures LeHolds(nb, r, v)
  {
    forall q | q in r
      ensures nb.ValueOf(q.0, v) <= nb.ValueOf(q.1, v)
    {
      var p :| p in dest && Linked2(e, p.0, q.0) && Linked2(e, p.1, q.1);
    }
  }

  lemma ReplicatedNeHolds(nb: Numbering, e: Pair, dest: set<Pair>, r: set<Pair>, v: Valuation)
    requires AllDerived(e, dest, r)
    requires NeHolds(nb, dest, v) && nb.ValueOf(e.0, v) == nb.ValueOf(e.1, v)
    ensures NeHolds(nb, r, v)
  {
    forall q | q in r
      ensures nb.ValueOf(q.0, v) != nb.ValueOf(q.1, v)
    {
      var p :| p in dest && Linked2(e, p.0, q.0) && Linked2(e, p.1, q.1);
    }
  }

  /** Union of two sets holds exactly if both were and the two numbers are equal. */
  lemma UnionHolds(nb: Numbering, eq: seq<nat>, p: Pair, v: Valuation)
    requires Flat(eq)
    ensures Shallow(eq) && Shallow(PutTogether(eq, p.0, p.1))
    ensures EqHolds(nb, PutTogether(eq, p.0, p.1), v) <==>
      EqHolds(nb, eq, v) && nb.ValueOf(p.0, v) == nb.ValueOf(p.1, v)
  {
    PutTogetherJoins(eq, p.0, p.1);
    var q := PutTogether(eq, p.0, p.1);
    if EqHolds(nb, q, v) {
      assert SameSet(q, p.0, p.1);
      forall i: nat, j: nat | SameSet(eq, i, j)
        ensures nb.ValueOf(i, v) == nb.ValueOf(j, v)
      {
        assert SameSet(q, i, j);
      }
    }
    if EqHolds(nb, eq, v) && nb.ValueOf(p.0, v) == nb.ValueOf(p.1, v) {
      forall i: nat
        ensures nb.ValueOf(i, v) == nb.ValueOf(Find(eq, i), v)
      {
        FindSame(eq, i);
      }
      forall i: nat, j: nat | SameSet(q, i, j)
        ensures nb.ValueOf(i, v) == nb.ValueOf(j, v)
      {
        assert Find(eq, i) == Find(eq, j) ||
          (Find(eq, i) in {Find(eq, p.0), Find(eq, p.1)} && Find(eq, j) in {Find(eq, p.0), Find(eq, p.1)});
      }
    }
  }

  lemma FindSame(eq: seq<nat>, i: nat)
    requires Flat(eq)
    ensures Shallow(eq) && SameSet(eq, i, Find(eq, i))
  {
    FlatIsShallow(eq);
  }

  // --- what is known ---------------------------------------------------------------------------------

  /** What a state has for bounds of an object, apart from its sign. */
  function StoredBounds(nb: Numbering, bounds: map<nat, Interval>, n: nat): Interval {
    match nb.objectAt(n)
    case Number(value) => IntersectWith(Singleton(value), BoundsOr(bounds, n))
    case Variable(_) => BoundsOr(bounds, n)
  }

  predicate UpTo(a: Interval, b: Interval, strictly: bool) {
    a.upper.Some? && b.lower.Some? && if strictly then a.upper.value < b.lower.value else a.upper.value <= b.lower.value
  }

  /** The pair, or the bounds of its objects, are on record as the comparison has them. */
  predicate OnRecord(nb: Numbering, s: Inv, c: Cond, p: Pair)
    requires Shallow(s.eq)
  {
    match c
    case Le(_, _) =>
      HasEq(s, p) || p in s.le || UpTo(StoredBounds(nb, s.bounds, p.0), StoredBounds(nb, s.bounds, p.1), false)
    case Lt(_, _) =>
      || (p in s.le && (p in s.ne || Swap(p) in s.ne))
      || UpTo(StoredBounds(nb, s.bounds, p.0), StoredBounds(nb, s.bounds, p.1), true)
    case Equal(_, _) => HasEq(s, p)
    case NotEqual(_, _) => p in s.ne || Swap(p) in s.ne
    case _ => false
  }

  /** The numbers of what is compared. */
  function PairOf(nb: Numbering, c: Cond): Option<Pair> {
    if Comparison(c).None? then None
    else
      var a, b := GetObject(nb, Comparison(c).value.0), GetObject(nb, Comparison(c).value.1);
      if a.Some? && b.Some? then Some((a.value, b.value)) else None
  }

  /** The condition is on record, or enough of its parts are. */
  predicate Known(nb: Numbering, s: Inv, c: Cond)
    requires Shallow(s.eq)
  {
    s.isFalse ||
    match c
    case Const(value) => value
    case And(ops) => forall i :: 0 <= i < |ops| ==> Known(nb, s, ops[i])
    case Or(ops) => exists i :: 0 <= i < |ops| && Known(nb, s, ops[i])
    case _ => PairOf(nb, c).Some? && OnRecord(nb, s, c, PairOf(nb, c).value)
  }

  /** Stored bounds are those that are read off, where there are any. */
  lemma StoredAreRead(nb: Numbering, s: Inv, n: nat, v: Valuation)
    requires Holds(nb, s, v)
    ensures
      var i := StoredBounds(nb, s.bounds, n);
      In(i, nb.ValueOf(n, v)) && (i.lower.Some? || i.upper.Some? ==> GetBounds(nb, s, n) == i)
  {
  }

  lemma RecordIsImplied(nb: Numbering, s: Inv, c: Cond, p: Pair, v: Valuation)
    requires nb.Valid() && Holds(nb, s, v) && OnRecord(nb, s, c, p)
    ensures ImpliesPair(nb, s, c, p).TvTrue?
  {
    StoredAreRead(nb, s, p.0, v);
    StoredAreRead(nb, s, p.1, v);
    assert HasEq(s, p) ==> nb.ValueOf(p.0, v) == nb.ValueOf(p.1, v);
    assert p in s.ne || Swap(p) in s.ne ==> nb.ValueOf(p.0, v) != nb.ValueOf(p.1, v);
    assert Swap(p) in s.le ==> nb.ValueOf(p.1, v) <= nb.ValueOf(p.0, v);
  }

  /** What is known is implied, unless the state allows nothing at all. */
  lemma {:induction false} KnownIsImplied(nb: Numbering, s: Inv, c: Cond, v: Valuation)
    requires nb.Valid() && Holds(nb, s, v) && Known(nb, s, c)
    ensures ImpliesRec(nb, s, c).TvTrue?
  {
    if PairOf(nb, c).Some? {
      RecordIsImplied(nb, s, c, PairOf(nb, c).value, v);
    } else if c.And? {
      forall i | 0 <= i < |c.ops|
        ensures ImpliesRec(nb, s, c.ops[i]).TvTrue?
      {
        KnownIsImplied(nb, s, c.ops[i], v);
      }
    } else if c.Or? {
      var i :| 0 <= i < |c.ops| && Known(nb, s, c.ops[i]);
      KnownIsImplied(nb, s, c.ops[i], v);
    }
  }

  /** The comparison that holds if `c` does not. */
  function Opposite(c: Cond): Cond
    requires Comparison(c).Some?
  {
    match c
    case Le(a, b) => Lt(b, a)
    case Lt(a, b) => Le(b, a)
    case Equal(a, b) => NotEqual(a, b)
    case NotEqual(a, b) => Equal(a, b)
  }

  /** The numbers of what the opposite compares. */
  function OppositePair(c: Cond, p: Pair): Pair {
    if c.Le? || c.Lt? then Swap(p) else p
  }

  /**
   A comparison is refuted once its opposite is on record. Only, `<` is not refuted by a pair in the inequalities
   alone.
   */
  lemma OppositeIsRefuted(nb: Numbering, s: Inv, c: Cond, p: Pair, v: Valuation)
    requires nb.Valid() && Holds(nb, s, v) && Comparison(c).Some?
    requires OnRecord(nb, s, Opposite(c), OppositePair(c, p))
    requires c.Lt? ==>
      HasEq(s, p) || UpTo(StoredBounds(nb, s.bounds, p.1), StoredBounds(nb, s.bounds, p.0), false)
    ensures ImpliesPair(nb, s, c, p).TvFalse?
  {
    StoredAreRead(nb, s, p.0, v);
    StoredAreRead(nb, s, p.1, v);
    assert HasEq(s, p) ==> nb.ValueOf(p.0, v) == nb.ValueOf(p.1, v);
    assert p in s.ne || Swap(p) in s.ne ==> nb.ValueOf(p.0, v) != nb.ValueOf(p.1, v);
    assert Swap(p) in s.le ==> nb.ValueOf(p.1, v) <= nb.ValueOf(p.0, v);
    assert p in s.le ==> nb.ValueOf(p.0, v) <= nb.ValueOf(p.1, v);
  }

  /** A disjunction is implied once one of its parts is known; a negated conjunction, once the negation of one is. */
  lemma OneIsEnough(nb: Numbering, s: Inv, ops: seq<Cond>, i: nat, v: Valuation)
    requires nb.Valid() && Holds(nb, s, v) && i < |ops|
    ensures Known(nb, s, Nnf(ops[i], false)) ==> Implies(nb, s, Or(ops)).TvTrue?
    ensures Known(nb, s, Nnf(ops[i], true)) ==> Implies(nb, s, Not(And(ops))).TvTrue?
  {
    var n, m := Nnf(Or(ops), false), Nnf(And(ops), true);
    assert Nnf(Not(And(ops)), false) == m;
    assert n.Or? && n.ops[i] == Nnf(ops[i], false) && m.Or? && m.ops[i] == Nnf(ops[i], true);
    if Known(nb, s, Nnf(ops[i], false)) {
      KnownIsImplied(nb, s, n, v);
    }
    if Known(nb, s, Nnf(ops[i], true)) {
      KnownIsImplied(nb, s, m, v);
    }
  }

  /** Where the bounds of two objects are apart, comparing them gives an answer. */
  lemma ApartIsAnswered(nb: Numbering, s: Inv, c: Cond, p: Pair)
    requires Shallow(s.eq) && (c.Le? || c.Lt?) && PairOf(nb, c) == Some(p)
    requires NonEmpty(GetBounds(nb, s, p.0)) && NonEmpty(GetBounds(nb, s, p.1))
    ensures
      var a, b := GetBounds(nb, s, p.0), GetBounds(nb, s, p.1);
      (if c.Le? then AllUpTo(a, b) || AllAbove(a, b) else AllUpTo(b, a) || AllAbove(b, a)) ==>
        !ImpliesRec(nb, s, c).TvUnknown?
  {
    LessEqualExactly(GetBounds(nb, s, p.0), GetBounds(nb, s, p.1));
    LessEqualExactly(GetBounds(nb, s, p.1), GetBounds(nb, s, p.0));
  }

  /** The later state has everything on record that the earlier one has. */
  ghost predicate Extends(before: Inv, after: Inv) {
    && Shallow(before.eq) && Shallow(after.eq)
    && (after.isFalse || (
      && !before.isFalse
      && (forall i: nat, j: nat :: SameSet(before.eq, i, j) ==> SameSet(after.eq, i, j))
      && before.le <= after.le && before.ne <= after.ne
      && forall n :: n in before.bounds ==> n in after.bounds && Tighter(after.bounds[n], before.bounds[n])))
  }

  lemma ExtendsOn(a: Inv, b: Inv, c: Inv)
    requires Extends(a, b) && Extends(b, c)
    ensures Extends(a, c)
  {
  }

  lemma {:induction false} KnownStays(nb: Numbering, before: Inv, after: Inv, c: Cond)
    requires Extends(before, after) && Known(nb, before, c)
    ensures Known(nb, after, c)
  {
    if !after.isFalse {
      if PairOf(nb, c).Some? {
        RecordStays(nb, before, after, c, PairOf(nb, c).value);
      } else if c.And? {
        forall i | 0 <= i < |c.ops|
          ensures Known(nb, after, c.ops[i])
        {
          KnownStays(nb, before, after, c.ops[i]);
        }
      } else if c.Or? {
        var i :| 0 <= i < |c.ops| && Known(nb, before, c.ops[i]);
        KnownStays(nb, before, after, c.ops[i]);
      }
    }
  }

  lemma RecordStays(nb: Numbering, before: Inv, after: Inv, c: Cond, p: Pair)
    requires Extends(before, after) && !after.isFalse && OnRecord(nb, before, c, p)
    ensures OnRecord(nb, after, c, p)
  {
  }

  /** What adding a comparison of two numbered objects leaves on record. */
  ghost predicate Recorded(nb: Numbering, before: Inv, after: Inv, c: Cond, p: Pair) {
    && Shallow(before.eq) && Shallow(after.eq)
    && (after.isFalse ||
        match c
        case Le(a, b) => NumericCast(a).Some? || NumericCast(b).Some? || PairsAdded(after.eq, p, after.le)
        case Lt(a, b) =>
          || NumericCast(a).Some? || NumericCast(b).Some?
          || (PairsAdded(after.eq, p, after.le) && PairsAdded(after.eq, p, after.ne))
        case NotEqual(_, _) => PairsAdded(after.eq, p, after.ne)
        case Equal(_, _) => HasEq(after, p) && (HasEq(before, p) || VariantsAdded(before, after, p))
        case _ => false)
  }

  /** Everything equal to the one is related to everything equal to the other. */
  ghost predicate PairsAdded(eq: seq<nat>, p: Pair, dest: set<Pair>)
    requires Shallow(eq)
  {
    p.0 < |eq| && p.1 < |eq| && AllPairs(eq, p) <= dest
  }

  lemma PairIsAdded(eq: seq<nat>, p: Pair, dest: set<Pair>)
    requires Shallow(eq) && PairsAdded(eq, p, dest)
    ensures p in dest
  {
    assert SameSet(eq, p.0, p.0) && SameSet(eq, p.1, p.1);
    assert p in AllPairs(eq, p);
  }

  /** Room for more numbers makes no more pairs, as a new number is equal to none. */
  lemma SameAllPairs(eq: seq<nat>, eq': seq<nat>, p: Pair)
    requires Shallow(eq) && Shallow(eq') && p.0 < |eq| && p.1 < |eq|
    requires forall i: nat, j: nat :: SameSet(eq', i, j) <==> SameSet(eq, i, j)
    ensures AllPairs(eq', p) <= AllPairs(eq, p)
  {
    forall q | q in AllPairs(eq', p)
      ensures q in AllPairs(eq, p)
    {
      assert SameSet(eq, q.0, p.0) && SameSet(eq, q.1, p.1);
    }
  }

  /** All pairs there were are there with the one number for the other as well. */
  ghost predicate VariantsAdded(before: Inv, after: Inv, e: Pair) {
    && (forall q :: q in before.le ==> Variants(e, q) <= after.le)
    && (forall q :: q in before.ne ==> Variants(e, q) <= after.ne)
  }

  /** If `x` and `y` are equal, and then `y` is found to be at most `z`, so is `x`. */
  lemma EqualThenLe(
    nb: Numbering, before: Inv, middle: Inv, after: Inv, x: Term, y: Term, z: Term, a: nat, b: nat, c: nat)
    requires GetObject(nb, x) == Some(a) && GetObject(nb, y) == Some(b) && GetObject(nb, z) == Some(c)
    requires NumericCast(y).None? && NumericCast(z).None?
    requires Recorded(nb, before, middle, Equal(x, y), (a, b)) && Extends(middle, after)
    requires Recorded(nb, middle, after, Le(y, z), (b, c))
    ensures Known(nb, after, Le(x, z))
  {
    if !after.isFalse {
      assert SameSet(middle.eq, a, b) && SameSet(after.eq, a, b);
      assert (a, c) in AllPairs(after.eq, (b, c));
    }
  }

  /** It is, too, if they are found to be equal afterwards. */
  lemma LeThenEqual(
    nb: Numbering, before: Inv, middle: Inv, after: Inv, x: Term, y: Term, z: Term, a: nat, b: nat, c: nat)
    requires GetObject(nb, x) == Some(a) && GetObject(nb, y) == Some(b) && GetObject(nb, z) == Some(c)
    requires NumericCast(y).None? && NumericCast(z).None?
    requires Recorded(nb, before, middle, Le(y, z), (b, c)) && Extends(middle, after)
    requires Recorded(nb, middle, after, Equal(x, y), (a, b))
    ensures Known(nb, after, Le(x, z))
  {
    if !after.isFalse {
      assert SameSet(middle.eq, b, b) && SameSet(middle.eq, c, c);
      assert (b, c) in AllPairs(middle.eq, (b, c));
      if HasEq(middle, (a, b)) {
        assert (a, c) in AllPairs(middle.eq, (b, c));
      } else {
        assert (a, c) in Variants((a, b), (b, c));
      }
    }
  }

  // --- facts added exactly -----------------------------------------------------------------------------

  /** The state allows what it did before, less what has not the fact. */
  ghost predicate Tightened(nb: Numbering, before: Inv, after: Inv, fact: Valuation -> bool) {
    forall v :: Holds(nb, after, v) <==> Holds(nb, before, v) && fact(v)
  }

  lemma ResizedHolds(nb: Numbering, eq: seq<nat>, n: nat, v: Valuation)
    requires Flat(eq)
    ensures Flat(Resized(eq, n)) && Shallow(eq) && Shallow(Resized(eq, n))
    ensures EqHolds(nb, Resized(eq, n), v) <==> EqHolds(nb, eq, v)
  {
    ResizedKeeps(eq, n);
    if EqHolds(nb, eq, v) {
      forall i: nat, j: nat | SameSet(Resized(eq, n), i, j)
        ensures nb.ValueOf(i, v) == nb.ValueOf(j, v)
      {
        assert SameSet(eq, i, j);
      }
    }
    if EqHolds(nb, Resized(eq, n), v) {
      forall i: nat, j: nat | SameSet(eq, i, j)
        ensures nb.ValueOf(i, v) == nb.ValueOf(j, v)
      {
        assert SameSet(Resized(eq, n), i, j);
      }
    }
  }

  lemma LeTightens(nb: Numbering, before: Inv, after: Inv, p: Pair)
    requires Flat(before.eq) && Flat(after.eq) && Shallow(before.eq) && Shallow(after.eq)
    requires forall v :: EqHolds(nb, after.eq, v) <==> EqHolds(nb, before.eq, v)
    requires p.0 < |after.eq| && p.1 < |after.eq|
    requires after == before.(eq := after.eq, le := before.le + AllPairs(after.eq, p))
    ensures Tightened(nb, before, after, v => nb.ValueOf(p.0, v) <= nb.ValueOf(p.1, v))
  {
    forall v
      ensures Holds(nb, after, v) <==> Holds(nb, before, v) && nb.ValueOf(p.0, v) <= nb.ValueOf(p.1, v)
    {
      if EqHolds(nb, after.eq, v) {
        PairsFollow(nb, after.eq, p, v);
      }
    }
  }

  lemma NeTightens(nb: Numbering, before: Inv, after: Inv, p: Pair)
    requires Flat(before.eq) && Flat(after.eq) && Shallow(before.eq) && Shallow(after.eq)
    requires forall v :: EqHolds(nb, after.eq, v) <==> EqHolds(nb, before.eq, v)
    requires p.0 < |after.eq| && p.1 < |after.eq|
    requires after == before.(eq := after.eq, ne := before.ne + AllPairs(after.eq, p))
    ensures Tightened(nb, before, after, v => nb.ValueOf(p.0, v) != nb.ValueOf(p.1, v))
  {
    forall v
      ensures Holds(nb, after, v) <==> Holds(nb, before, v) && nb.ValueOf(p.0, v) != nb.ValueOf(p.1, v)
    {
      if EqHolds(nb, after.eq, v) {
        PairsFollow(nb, after.eq, p, v);
      }
    }
  }

  function BoundsOr(bounds: map<nat, Interval>, n: nat): Interval {
    if n in bounds then bounds[n] else TOP
  }

  lemma BoundsTighten(nb: Numbering, before: Inv, n: nat, i: Interval)
    ensures Tightened(
              nb, before, before.(bounds := before.bounds[n := IntersectWith(BoundsOr(before.bounds, n), i)]),
              v => In(i, nb.ValueOf(n, v)))
  {
    var after := before.(bounds := before.bounds[n := IntersectWith(BoundsOr(before.bounds, n), i)]);
    forall v
      ensures BoundsHold(nb, after.bounds, v) <==> BoundsHold(nb, before.bounds, v) && In(i, nb.ValueOf(n, v))
    {
      var x := nb.ValueOf(n, v);
      assert In(after.bounds[n], x) <==> In(BoundsOr(before.bounds, n), x) && In(i, x);
      if BoundsHold(nb, after.bounds, v) {
        forall m | m in before.bounds
          ensures In(before.bounds[m], nb.ValueOf(m, v))
        {
          assert m in after.bounds;
        }
      }
    }
  }

  /** Two different numbers in one set are both of constants. */
  ghost predicate TwoConstants(nb: Numbering, eq: seq<nat>, r: nat)
    requires Shallow(eq)
  {
    exists i: nat, j: nat :: i < j < |eq| && Find(eq, i) == r && Find(eq, j) == r
      && nb.objectAt(i).Number? && nb.objectAt(j).Number?
  }

  /** As each number stands for another object, that cannot be. */
  lemma TwoConstantsContradict(nb: Numbering, eq: seq<nat>, r: nat, v: Valuation)
    requires nb.Valid() && Shallow(eq) && TwoConstants(nb, eq, r)
    ensures !EqHolds(nb, eq, v)
  {
    var i: nat, j: nat :| i < j < |eq| && Find(eq, i) == r && Find(eq, j) == r
      && nb.objectAt(i).Number? && nb.objectAt(j).Number?;
    assert SameSet(eq, i, j);
    assert nb.number(nb.objectAt(i)) == Some(i) && nb.number(nb.objectAt(j)) == Some(j);
  }

  /** Two sets are made one, and all pairs replicated over the new equality. */
  ghost predicate EqAdded(before: Inv, after: Inv, p: Pair)
  {
    && Flat(before.eq) && after.eq == PutTogether(before.eq, p.0, p.1)
    && after == before.(eq := after.eq, le := after.le, ne := after.ne)
    && before.le <= after.le && AllDerived(p, before.le, after.le)
    && before.ne <= after.ne && AllDerived(p, before.ne, after.ne)
    && VariantsAdded(before, after, p)
  }

  lemma EqExtends(before: Inv, after: Inv, p: Pair)
    requires EqAdded(before, after, p) && !before.isFalse
    ensures Extends(before, after) && HasEq(after, p)
  {
    PutTogetherJoins(before.eq, p.0, p.1);
  }

  lemma EqTightens(nb: Numbering, before: Inv, after: Inv, p: Pair)
    requires EqAdded(before, after, p)
    ensures Tightened(nb, before, after, v => nb.ValueOf(p.0, v) == nb.ValueOf(p.1, v))
  {
    forall v
      ensures Holds(nb, after, v) <==> Holds(nb, before, v) && nb.ValueOf(p.0, v) == nb.ValueOf(p.1, v)
    {
      UnionHolds(nb, before.eq, p, v);
      if Holds(nb, before, v) && nb.ValueOf(p.0, v) == nb.ValueOf(p.1, v) {
        ReplicatedLeHolds(nb, p, before.le, after.le, v);
        ReplicatedNeHolds(nb, p, before.ne, after.ne, v);
      }
    }
  }

  lemma ContradictionTightens(nb: Numbering, before: Inv, after: Inv, p: Pair)
    requires nb.Valid() && Flat(before.eq) && after.isFalse
    requires Shallow(PutTogether(before.eq, p.0, p.1))
    requires TwoConstants(nb, PutTogether(before.eq, p.0, p.1), Find(PutTogether(before.eq, p.0, p.1), p.0))
    ensures Tightened(nb, before, after, v => nb.ValueOf(p.0, v) == nb.ValueOf(p.1, v))
  {
    forall v
      ensures !(Holds(nb, before, v) && nb.ValueOf(p.0, v) == nb.ValueOf(p.1, v))
    {
      UnionHolds(nb, before.eq, p, v);
      TwoConstantsContradict(nb, PutTogether(before.eq, p.0, p.1), Find(PutTogether(before.eq, p.0, p.1), p.0), v);
    }
  }

  // --- weakening -----------------------------------------------------------------------------------------

  method IntersectPairs(dest: set<Pair>, other: set<Pair>) returns (r: set<Pair>)
    ensures r == dest * other
  {
    r := dest;
    var todo := dest;
    while todo != {}
      invariant todo <= r <= dest
      invariant forall p :: p in dest ==> (p in r <==> p in todo || p in other)
      decreases |todo|
    {
      var p :| p in todo;
      if p !in other {
        r := r - {p};
      }
      todo := todo - {p};
    }
  }

  function Without(s: set<Pair>, n: nat): set<Pair> {
    set p | p in s && p.0 != n && p.1 != n
  }

  method RemovePairs(dest: set<Pair>, n: nat) returns (r: set<Pair>)
    ensures r == Without(dest, n)
  {
    r := dest;
    var todo := dest;
    while todo != {}
      invariant todo <= r <= dest
      invariant forall p :: p in dest ==> (p in r <==> p in todo || (p.0 != n && p.1 != n))
      decreases |todo|
    {
      var p :| p in todo;
      if p.0 == n || p.1 == n {
        r := r - {p};
      }
      todo := todo - {p};
    }
  }

  function UnionBounds(a: map<nat, Interval>, b: map<nat, Interval>): map<nat, Interval> {
    map n | n in a && n in b :: ApproxUnionWith(a[n], b[n])
  }

  predicate Changes(i: Interval, other: map<nat, Interval>, n: nat) {
    n !in other || ApproxUnionWith(i, other[n]) != i
  }

  method MakeUnionBoundsMap(bounds: map<nat, Interval>, other: map<nat, Interval>)
    returns (r: map<nat, Interval>, changed: bool)
    ensures r == UnionBounds(bounds, other)
    ensures changed <==> r != bounds
  {
    r, changed := bounds, false;
    var todo := bounds.Keys;
    while todo != {}
      invariant todo <= bounds.Keys
      invariant forall n :: n in r <==> n in bounds && (n in todo || n in other)
      invariant forall n :: n in r ==> r[n] == if n in todo then bounds[n] else ApproxUnionWith(bounds[n], other[n])
      invariant changed <==> exists n :: n in bounds && n !in todo && Changes(bounds[n], other, n)
      decreases |todo|
    {
      var n :| n in todo;
      if n !in other {
        r := r - {n};
        changed := true;
      } else {
        var joined := ApproxUnionWith(r[n], other[n]);
        if joined != r[n] {
          changed := true;
        }
        r := r[n := joined];
      }
      todo := todo - {n};
    }
    assert r == UnionBounds(bounds, other);
  }

  /** What two states that are not threaded are joined to. */
  function UnionState(a: Inv, b: Inv): Inv
    requires Flat(a.eq) && Flat(b.eq)
  {
    if b.isFalse then a
    else if a.isFalse then b.(threaded := a.threaded)
    else Inv(Intersected(a.eq, b.eq), a.le * b.le, a.ne * b.ne, UnionBounds(a.bounds, b.bounds), a.threaded, false)
  }

  /** Whatever bounds both states have of an object, and whatever pairs, the joined one has. */
  lemma UnionKeepsShared(nb: Numbering, a: Inv, b: Inv, n: nat, i: Interval, p: Pair)
    requires Flat(a.eq) && Flat(b.eq) && !a.isFalse && !b.isFalse
    ensures
      var u := UnionState(a, b);
      && (Tighter(StoredBounds(nb, a.bounds, n), i) && Tighter(StoredBounds(nb, b.bounds, n), i) ==>
            Tighter(StoredBounds(nb, u.bounds, n), i))
      && (p in a.le && p in b.le ==> p in u.le) && (p in a.ne && p in b.ne ==> p in u.ne)
  {
    if n in a.bounds && n in b.bounds {
      UnionIsLeast(a.bounds[n], b.bounds[n], i);
    }
  }

  /** All that either state allows, the joined one does. */
  lemma UnionIsWeaker(nb: Numbering, a: Inv, b: Inv, after: Inv, v: Valuation)
    requires Flat(a.eq) && Flat(b.eq) && !after.isFalse
    requires after.eq == Intersected(a.eq, b.eq) && after.le == a.le * b.le && after.ne == a.ne * b.ne
    requires after.bounds == UnionBounds(a.bounds, b.bounds)
    requires Holds(nb, a, v) || Holds(nb, b, v)
    ensures Holds(nb, after, v)
  {
    FlatIsShallow(after.eq);
    forall i: nat, j: nat | SameSet(after.eq, i, j)
      ensures nb.ValueOf(i, v) == nb.ValueOf(j, v)
    {
      IntersectionIsMeetExactly(a.eq, b.eq);
    }
  }

  /** If the sizes are as before, nothing was weakened. */
  lemma UnionUnchanged(nb: Numbering, a: Inv, b: Inv, after: Inv, v: Valuation)
    requires Flat(a.eq) && Flat(b.eq) && !a.isFalse
    requires after.eq == Intersected(a.eq, b.eq) && after.le == a.le * b.le && after.ne == a.ne * b.ne
    requires after.bounds == a.bounds && CountRoots(after.eq) == CountRoots(a.eq)
    requires |after.le| == |a.le| && |after.ne| == |a.ne| && Holds(nb, after, v)
    ensures Holds(nb, a, v)
  {
    SameRootsSameSets(a.eq, b.eq);
    SameSizeSame(a.le, after.le);
    SameSizeSame(a.ne, after.ne);
    forall i: nat, j: nat | SameSet(a.eq, i, j)
      ensures nb.ValueOf(i, v) == nb.ValueOf(j, v)
    {
      assert SameSet(after.eq, i, j);
    }
  }

  lemma SameSizeSame<T>(a: set<T>, b: set<T>)
    requires b <= a && |b| == |a|
    ensures a == b
  {
    assert a == b + (a - b);
  }

  ghost predicate SameBut(nb: Numbering, n: nat, v: Valuation, v': Valuation) {
    forall m: nat :: m != n ==> nb.ValueOf(m, v) == nb.ValueOf(m, v')
  }

  /** What is known about other objects outlives a change of one. */
  lemma ModifiedIsSound(nb: Numbering, before: Inv, after: Inv, n: nat, v: Valuation, v': Valuation)
    requires Flat(before.eq) && !after.isFalse
    requires after.eq == Isolated(before.eq, n) && after.bounds == before.bounds - {n}
    requires after.le == Without(before.le, n) && after.ne == Without(before.ne, n)
    requires Holds(nb, before, v) && SameBut(nb, n, v, v')
    ensures Holds(nb, after, v')
  {
    IsolatedIsAlone(before.eq, n);
    forall i: nat, j: nat | SameSet(after.eq, i, j)
      ensures nb.ValueOf(i, v') == nb.ValueOf(j, v')
    {
      if i != n && j != n {
        assert SameSet(before.eq, i, j);
      }
    }
  }

  // --- assigning -----------------------------------------------------------------------------------------

  /** A left-hand side: a variable, an array element, or one of two as a condition has it. */
  datatype Lhs = Symbol(name: string) | Element | Choice(first: Lhs, second: Lhs)

  function Targets(lhs: Lhs): set<Option<string>> {
    match lhs
    case Symbol(name) => {Some(name)}
    case Element => {None}
    case Choice(first, second) => Targets(first) + Targets(second)
  }

  /** The left-hand side as an expression; only a variable is one that can be looked up. */
  function LhsTerm(lhs: Lhs): Term {
    if lhs.Symbol? then Obj(Variable(lhs.name)) else Other(0)
  }

  /** The target gets the value; what is known only by its identity may come to mean anything. */
  ghost predicate AssignedTo(target: Option<string>, value: int, v: Valuation, v': Valuation) {
    forall name :: v'.vars(name) == if target == Some(name) then value else v.vars(name)
  }

  /** What is left of a state when all about an object is given up. */
  function Dropped(s: Inv, n: nat): Inv {
    s.(eq := Isolated(s.eq, n), le := Without(s.le, n), ne := Without(s.ne, n), bounds := s.bounds - {n})
  }

  /** What is left of it behind an assignment to the left-hand side. */
  function Forgot(nb: Numbering, s: Inv, lhs: Lhs): Inv
    decreases lhs
  {
    match lhs
    case Symbol(name) => if nb.number(Variable(name)).Some? then Dropped(s, nb.number(Variable(name)).value) else s
    case Element => s
    case Choice(first, second) => Forgot(nb, Forgot(nb, s, first), second)
  }

  /** The number is that of a variable the assignment may be to. */
  predicate IsTarget(nb: Numbering, lhs: Lhs, n: nat) {
    match lhs
    case Symbol(name) => nb.number(Variable(name)) == Some(n)
    case Element => false
    case Choice(first, second) => IsTarget(nb, first, n) || IsTarget(nb, second, n)
  }

  /** All that does not speak of a target is left, and nothing else is. */
  lemma {:induction false} ForgotExactly(nb: Numbering, s: Inv, lhs: Lhs, p: Pair)
    requires Flat(s.eq)
    ensures
      var r := Forgot(nb, s, lhs);
      var free := !IsTarget(nb, lhs, p.0) && !IsTarget(nb, lhs, p.1);
      && Flat(r.eq) && Shallow(s.eq) && Shallow(r.eq) && r.isFalse == s.isFalse && r.threaded == s.threaded
      && (p in r.le <==> p in s.le && free) && (p in r.ne <==> p in s.ne && free)
      && (SameSet(r.eq, p.0, p.1) <==> p.0 == p.1 || (SameSet(s.eq, p.0, p.1) && free))
      && (p.0 in r.bounds <==> p.0 in s.bounds && !IsTarget(nb, lhs, p.0))
      && (p.0 in r.bounds ==> r.bounds[p.0] == s.bounds[p.0])
    decreases lhs
  {
    FlatIsShallow(s.eq);
    match lhs
    case Symbol(name) =>
      if nb.number(Variable(name)).Some? {
        IsolatedIsAlone(s.eq, nb.number(Variable(name)).value);
      }
    case Element =>
    case Choice(first, second) =>
      ForgotExactly(nb, s, first, p);
      ForgotExactly(nb, Forgot(nb, s, first), second, p);
  }

  /** Whichever target is assigned whatever value, the state allows the outcome. */
  ghost predicate Forgotten(nb: Numbering, before: Inv, after: Inv, targets: set<Option<string>>) {
    && (forall v :: Holds(nb, before, v) ==> Holds(nb, after, v))
    && (forall target, value, v, v' ::
          AssignedTo(target, value, v, v') && target in targets && Holds(nb, before, v) ==> Holds(nb, after, v'))
  }

  lemma SymbolForgotten(nb: Numbering, before: Inv, after: Inv, name: string)
    requires nb.Valid() && Flat(before.eq) && after.isFalse == before.isFalse
    requires
      match nb.number(Variable(name))
      case None => after == before
      case Some(n) =>
        && after.eq == Isolated(before.eq, n) && after.bounds == before.bounds - {n}
        && after.le == Without(before.le, n) && after.ne == Without(before.ne, n)
    ensures Forgotten(nb, before, after, {Some(name)})
  {
    FlatIsShallow(before.eq);
    forall target, value, v, v' |
      AssignedTo(target, value, v, v') && (target == Some(name) || v' == v) && Holds(nb, before, v)
      ensures Holds(nb, after, v')
    {
      forall m: nat
        ensures nb.objectAt(m) != Variable(name) ==> nb.ValueOf(m, v) == nb.ValueOf(m, v')
      {
      }
      match nb.number(Variable(name))
      case None =>
        forall m: nat
          ensures nb.ValueOf(m, v) == nb.ValueOf(m, v')
        {
          assert nb.number(nb.objectAt(m)) == Some(m);
        }
        SameValuesHold(nb, before, v, v');
      case Some(n) =>
        forall m: nat | m != n
          ensures nb.ValueOf(m, v) == nb.ValueOf(m, v')
        {
          assert nb.number(nb.objectAt(m)) == Some(m);
        }
        ModifiedIsSound(nb, before, after, n, v, v');
    }
    forall v | Holds(nb, before, v)
      ensures Holds(nb, after, v)
    {
      assert AssignedTo(None, 0, v, v);
    }
  }

  lemma SameValuesHold(nb: Numbering, s: Inv, v: Valuation, v': Valuation)
    requires Holds(nb, s, v) && forall m: nat :: nb.ValueOf(m, v) == nb.ValueOf(m, v')
    ensures Holds(nb, s, v')
  {
    forall i: nat, j: nat | SameSet(s.eq, i, j)
      ensures nb.ValueOf(i, v') == nb.ValueOf(j, v')
    {
      assert nb.ValueOf(i, v) == nb.ValueOf(j, v);
    }
  }

  lemma NothingForgotten(nb: Numbering, s: Inv)
    requires nb.Valid()
    ensures Forgotten(nb, s, s, {None})
  {
    forall target, value, v, v' | AssignedTo(target, value, v, v') && target == None && Holds(nb, s, v)
      ensures Holds(nb, s, v')
    {
      forall m: nat
        ensures nb.ValueOf(m, v) == nb.ValueOf(m, v')
      {
      }
      SameValuesHold(nb, s, v, v');
    }
  }

  /** The state has the number fixed at a value by its bounds, or by a constant it equals. */
  ghost predicate ConstantOf(nb: Numbering, s: Inv, n: nat, c: int)
    requires Shallow(s.eq)
  {
    || (n in s.bounds && s.bounds[n] == Singleton(c))
    || exists i: nat :: i < |s.eq| && SameSet(s.eq, i, n) && nb.objectAt(i) == Number(c)
  }

  lemma ConstantOfIsSound(nb: Numbering, s: Inv, n: nat, c: int, v: Valuation)
    requires Shallow(s.eq) && ConstantOf(nb, s, n, c) && Holds(nb, s, v)
    ensures nb.ValueOf(n, v) == c
  {
    if n in s.bounds && s.bounds[n] == Singleton(c) {
      assert In(s.bounds[n], nb.ValueOf(n, v));
    } else {
      var i: nat :| i < |s.eq| && SameSet(s.eq, i, n) && nb.objectAt(i) == Number(c);
      assert nb.ValueOf(i, v) == nb.ValueOf(n, v);
    }
  }

  lemma ConstantOfStays(nb: Numbering, before: Inv, after: Inv, n: nat, c: int, x: nat)
    requires Flat(before.eq) && Shallow(before.eq) && ConstantOf(nb, before, n, c) && x != n
    requires !nb.objectAt(x).Number?
    requires after.eq == Isolated(before.eq, x) && after.bounds == before.bounds - {x}
    ensures Shallow(after.eq) && ConstantOf(nb, after, n, c)
  {
    IsolatedIsAlone(before.eq, x);
    if !(n in before.bounds && before.bounds[n] == Singleton(c)) {
      var i: nat :| i < |before.eq| && SameSet(before.eq, i, n) && nb.objectAt(i) == Number(c);
      assert SameSet(after.eq, i, n);
    }
  }

  // --- the invariant set -----------------------------------------------------------------------------------

  class Invariants {
    const nb: Numbering
    var eqSet: seq<nat>
    var leSet: set<Pair>
    var neSet: set<Pair>
    var boundsMap: map<nat, Interval>
    var threaded: bool
    var isFalse: bool

    /** Between operations, the forest of equalities is flat. */
    ghost predicate Valid()
      reads this
    {
      nb.Valid() && Flat(eqSet) && Shallow(eqSet)
    }

    function State(): Inv
      reads this
    {
      Inv(eqSet, leSet, neSet, boundsMap, threaded, isFalse)
    }

    constructor (nb: Numbering)
      requires nb.Valid()
      ensures Valid() && this.nb == nb && State() == Inv([], {}, {}, map[], false, false)
    {
      this.nb := nb;
      eqSet, leSet, neSet, boundsMap, threaded, isFalse := [], {}, {}, map[], false, false;
    }

    method MakeTrue()
      requires Valid()
      modifies this
      ensures Valid() && State() == Inv([], {}, {}, old(boundsMap), old(threaded), false)
    {
      eqSet, leSet, neSet, isFalse := [], {}, {}, false;
    }

    method MakeFalse()
      requires Valid()
      modifies this
      ensures Valid() && State() == Inv([], {}, {}, old(boundsMap), old(threaded), true)
    {
      eqSet, leSet, neSet, isFalse := [], {}, {}, true;
    }

    method MakeThreaded()
      requires Valid()
      modifies this
      ensures Valid() && State() == Inv([], {}, {}, old(boundsMap), true, false)
    {
      MakeTrue();
      threaded := true;
    }

    /** Makes room for two numbers. */
    method CheckIndices(p: Pair)
      requires Valid()
      modifies this`eqSet
      ensures Valid() && p.0 < |eqSet| && p.1 < |eqSet|
      ensures forall v :: EqHolds(nb, eqSet, v) <==> EqHolds(nb, old(eqSet), v)
      ensures forall i: nat, j: nat :: SameSet(eqSet, i, j) <==> SameSet(old(eqSet), i, j)
    {
      ResizedKeeps(eqSet, p.0 + 1);
      ResizedKeeps(Resized(eqSet, p.0 + 1), p.1 + 1);
      forall v
        ensures EqHolds(nb, Resized(Resized(eqSet, p.0 + 1), p.1 + 1), v) <==> EqHolds(nb, eqSet, v)
      {
        ResizedHolds(nb, eqSet, p.0 + 1, v);
        ResizedHolds(nb, Resized(eqSet, p.0 + 1), p.1 + 1, v);
      }
      eqSet := Resized(Resized(eqSet, p.0 + 1), p.1 + 1);
    }

    method AddLe(p: Pair)
      requires Valid()
      modifies this
      ensures Valid() && Extends(old(State()), State()) && PairsAdded(eqSet, p, leSet)
      ensures forall i: nat, j: nat :: SameSet(eqSet, i, j) <==> SameSet(old(eqSet), i, j)
      ensures Tightened(nb, old(State()), State(), v => nb.ValueOf(p.0, v) <= nb.ValueOf(p.1, v))
    {
      CheckIndices(p);
      leSet := AddPairs(eqSet, p, leSet);
      LeTightens(nb, old(State()), State(), p);
    }

    method AddNe(p: Pair)
      requires Valid()
      modifies this
      ensures Valid() && Extends(old(State()), State()) && PairsAdded(eqSet, p, neSet)
      ensures forall i: nat, j: nat :: SameSet(eqSet, i, j) <==> SameSet(old(eqSet), i, j)
      ensures Tightened(nb, old(State()), State(), v => nb.ValueOf(p.0, v) != nb.ValueOf(p.1, v))
    {
      CheckIndices(p);
      neSet := AddPairs(eqSet, p, neSet);
      NeTightens(nb, old(State()), State(), p);
    }

    method AddBounds(n: nat, i: Interval)
      requires Valid()
      modifies this
      ensures Valid() && Extends(old(State()), State())
      ensures State() == old(State()).(bounds := boundsMap)
      ensures n in boundsMap && Tighter(boundsMap[n], i)
      ensures Tightened(nb, old(State()), State(), v => In(i, nb.ValueOf(n, v)))
    {
      boundsMap := boundsMap[n := IntersectWith(BoundsOr(boundsMap, n), i)];
      BoundsTighten(nb, old(State()), n, i);
    }

    /** Looks for a second constant in a set. */
    method Contradicts(r: nat) returns (b: bool)
      requires Valid()
      ensures b <==> TwoConstants(nb, eqSet, r)
    {
      var seen := false;
      ghost var first := 0;
      b := false;
      for i := 0 to |eqSet|
        invariant seen ==> first < i && Find(eqSet, first) == r && nb.objectAt(first).Number?
        invariant !seen ==> forall k: nat :: k < i ==> Find(eqSet, k) != r || !nb.objectAt(k).Number?
        invariant forall k: nat :: k < i && Find(eqSet, k) == r && nb.objectAt(k).Number? ==> k == first
      {
        if Find(eqSet, i) == r {
          if nb.objectAt(i).Number? {
            if seen {
              return true;
            } else {
              seen := true;
              first := i;
            }
          }
        }
      }
    }

    /** Makes two numbers equal; looking up all numbers afterwards leaves the forest flat. */
    method AddEq(p: Pair)
      requires Valid() && !isFalse
      modifies this
      ensures Valid() && Extends(old(State()), State())
      ensures isFalse || (HasEq(State(), p) && EqAdded(old(State()), State(), p))
      ensures Tightened(nb, old(State()), State(), v => nb.ValueOf(p.0, v) == nb.ValueOf(p.1, v))
    {
      PutTogetherJoins(eqSet, p.0, p.1);
      eqSet := PutTogether(eqSet, p.0, p.1);
      var contradiction := Contradicts(Find(eqSet, p.0));
      if contradiction {
        MakeFalse();
        ContradictionTightens(nb, old(State()), State(), p);
        return;
      }
      leSet := Replicate(p, leSet);
      neSet := Replicate(p, neSet);
      EqTightens(nb, old(State()), State(), p);
      EqExtends(old(State()), State(), p);
    }

    /** Adds a comparison with a constant, which gives a bound. */
    method BoundLe(c: Cond, p: Pair)
      requires Valid() && !isFalse && (c.Le? || c.Lt?)
      requires GetObject(nb, c.lhs) == Some(p.0) && GetObject(nb, c.rhs) == Some(p.1)
      requires NumericCast(c.lhs).Some? || NumericCast(c.rhs).Some?
      modifies this
      ensures Valid() && Tightened(nb, old(State()), State(), v => Eval(c, v))
      ensures Extends(old(State()), State()) && OnRecord(nb, State(), c, p)
    {
      var i0, i1 := NumericCast(c.lhs), NumericCast(c.rhs);
      if i0.Some? {
        AddBounds(p.1, Interval(Some(if c.Lt? then i0.value + 1 else i0.value), None));
      } else {
        AddBounds(p.0, Interval(None, Some(if c.Lt? then i1.value - 1 else i1.value)));
      }
      forall v
        ensures nb.ValueOf(p.0, v) == TermValue(c.lhs, v) && nb.ValueOf(p.1, v) == TermValue(c.rhs, v)
      {
        ObjectHasValue(nb, c.lhs, v);
        ObjectHasValue(nb, c.rhs, v);
      }
    }

    /** Adds a comparison of two numbers, one of which may be a constant. */
    method StrengthenLe(c: Cond, p: Pair)
      requires Valid() && !isFalse && (c.Le? || c.Lt?)
      requires GetObject(nb, c.lhs) == Some(p.0) && GetObject(nb, c.rhs) == Some(p.1)
      modifies this
      ensures Valid() && Tightened(nb, old(State()), State(), v => Eval(c, v))
      ensures Extends(old(State()), State()) && Known(nb, State(), c)
      ensures Recorded(nb, old(State()), State(), c, p)
    {
      assert PairOf(nb, c) == Some(p);
      if NumericCast(c.lhs).Some? || NumericCast(c.rhs).Some? {
        BoundLe(c, p);
        return;
      }
      AddLe(p);
      PairIsAdded(eqSet, p, leSet);
      if c.Lt? {
        ghost var middle := State();
        AddNe(p);
        PairIsAdded(eqSet, p, neSet);
        SameAllPairs(middle.eq, eqSet, p);
      }
      forall v
        ensures nb.ValueOf(p.0, v) == TermValue(c.lhs, v) && nb.ValueOf(p.1, v) == TermValue(c.rhs, v)
      {
        ObjectHasValue(nb, c.lhs, v);
        ObjectHasValue(nb, c.rhs, v);
      }
    }

    /** An object that equals a number is bounded by it. */
    method BoundEqual(c: Cond, p: Pair)
      requires Valid() && !isFalse && c.Equal?
      requires GetObject(nb, c.lhs) == Some(p.0) && GetObject(nb, c.rhs) == Some(p.1)
      modifies this
      ensures Valid() && Extends(old(State()), State()) && State() == old(State()).(bounds := boundsMap)
      ensures forall v :: Holds(nb, old(State()), v) && Eval(c, v) ==> Holds(nb, State(), v)
      ensures forall v :: Holds(nb, State(), v) ==> Holds(nb, old(State()), v)
    {
      var i0, i1 := NumericCast(c.lhs), NumericCast(c.rhs);
      if i0.Some? {
        AddBounds(p.1, Singleton(i0.value));
      } else if i1.Some? {
        AddBounds(p.0, Singleton(i1.value));
      }
      forall v
        ensures nb.ValueOf(p.0, v) == TermValue(c.lhs, v) && nb.ValueOf(p.1, v) == TermValue(c.rhs, v)
      {
        ObjectHasValue(nb, c.lhs, v);
        ObjectHasValue(nb, c.rhs, v);
      }
    }

    /** Makes two numbers equal, unless they are already, or are known not to be. */
    method MakeEqual(p: Pair)
      requires Valid() && !isFalse
      modifies this
      ensures Valid() && Extends(old(State()), State())
      ensures isFalse || (HasEq(State(), p) && (old(HasEq(State(), p)) || VariantsAdded(old(State()), State(), p)))
      ensures Tightened(nb, old(State()), State(), v => nb.ValueOf(p.0, v) == nb.ValueOf(p.1, v))
    {
      if p in neSet || Swap(p) in neSet {
        MakeFalse();
      } else if !SameSet(eqSet, p.0, p.1) {
        AddEq(p);
      }
    }

    method StrengthenEqual(c: Cond, p: Pair)
      requires Valid() && !isFalse && c.Equal?
      requires GetObject(nb, c.lhs) == Some(p.0) && GetObject(nb, c.rhs) == Some(p.1)
      modifies this
      ensures Valid() && Tightened(nb, old(State()), State(), v => Eval(c, v))
      ensures Extends(old(State()), State()) && Known(nb, State(), c)
      ensures Recorded(nb, old(State()), State(), c, p)
    {
      forall v
        ensures nb.ValueOf(p.0, v) == TermValue(c.lhs, v) && nb.ValueOf(p.1, v) == TermValue(c.rhs, v)
      {
        ObjectHasValue(nb, c.lhs, v);
        ObjectHasValue(nb, c.rhs, v);
      }
      BoundEqual(c, p);
      ghost var middle := State();
      MakeEqual(p);
      ExtendsOn(old(State()), middle, State());
      assert PairOf(nb, c) == Some(p);
    }

    method StrengthenNotEqual(c: Cond, p: Pair)
      requires Valid() && !isFalse && c.NotEqual?
      requires GetObject(nb, c.lhs) == Some(p.0) && GetObject(nb, c.rhs) == Some(p.1)
      modifies this
      ensures Valid() && Tightened(nb, old(State()), State(), v => Eval(c, v))
      ensures Extends(old(State()), State()) && Known(nb, State(), c)
      ensures Recorded(nb, old(State()), State(), c, p)
    {
      forall v
        ensures nb.ValueOf(p.0, v) == TermValue(c.lhs, v) && nb.ValueOf(p.1, v) == TermValue(c.rhs, v)
      {
        ObjectHasValue(nb, c.lhs, v);
        ObjectHasValue(nb, c.rhs, v);
      }
      if SameSet(eqSet, p.0, p.1) {
        MakeFalse();
      } else {
        AddNe(p);
      }
    }

    /** Adds what a condition in normal form says. */
    method StrengthenRec(c: Cond)
      requires Valid()
      modifies this
      ensures Valid() && AllStrengthened(nb, old(State()), State(), c)
      ensures !c.And? && !Exact(nb, c) ==> State() == old(State())
      ensures Extends(old(State()), State()) && (Exact(nb, c) ==> Known(nb, State(), c))
      ensures PairOf(nb, c).Some? ==> Recorded(nb, old(State()), State(), c, PairOf(nb, c).value)
      decreases c
    {
      if isFalse {
        return;
      }
      if c.Const? {
        if !c.value {
          MakeFalse();
        }
      } else if c.And? {
        for i := 0 to |c.ops|
          invariant Valid() && AllStrengthened(nb, old(State()), State(), And(c.ops[..i]))
          invariant Extends(old(State()), State())
          invariant Exact(nb, c) ==> forall k :: 0 <= k < i ==> Known(nb, State(), c.ops[k])
        {
          ghost var before := State();
          StrengthenRec(c.ops[i]);
          AndStrengthens(nb, old(State()), before, State(), c.ops, i);
          AndIsKnown(nb, before, State(), c.ops, i);
          ExtendsOn(old(State()), before, State());
        }
        assert c.ops[..|c.ops|] == c.ops;
      } else if Comparison(c).Some? {
        var a, b := GetObject(nb, Comparison(c).value.0), GetObject(nb, Comparison(c).value.1);
        if a.None? || b.None? {
          return;
        }
        if c.Equal? {
          StrengthenEqual(c, (a.value, b.value));
        } else if c.NotEqual? {
          StrengthenNotEqual(c, (a.value, b.value));
        } else {
          StrengthenLe(c, (a.value, b.value));
        }
      }
    }

    method Strengthen(c: Cond)
      requires Valid()
      modifies this
      ensures Valid()
      ensures forall v :: Holds(nb, old(State()), v) && Eval(c, v) ==> Holds(nb, State(), v)
      ensures forall v :: Holds(nb, State(), v) ==> Holds(nb, old(State()), v)
      ensures Exact(nb, Nnf(c, false)) ==> forall v :: Holds(nb, State(), v) ==> Eval(c, v)
      ensures c.Equal? && !Exact(nb, c) ==> State() == old(State())
      ensures Extends(old(State()), State())
      ensures Exact(nb, Nnf(c, false)) ==> Known(nb, State(), Nnf(c, false))
      ensures PairOf(nb, Nnf(c, false)).Some? ==>
                Recorded(nb, old(State()), State(), Nnf(c, false), PairOf(nb, Nnf(c, false)).value)
      ensures Exact(nb, Nnf(c, false)) ==>
                forall v :: Holds(nb, State(), v) ==> Implies(nb, State(), c).TvTrue?
    {
      var tmp := Nnf(c, false);
      StrengthenRec(tmp);
      forall v
        ensures Holds(nb, old(State()), v) && Eval(c, v) ==> Holds(nb, State(), v)
        ensures Holds(nb, State(), v) ==> Holds(nb, old(State()), v)
        ensures Exact(nb, tmp) && Holds(nb, State(), v) ==> Eval(c, v)
      {
        NnfKeepsMeaning(c, false, v);
        assert Strengthened(nb, old(State()), State(), tmp, v);
      }
      forall v | Exact(nb, tmp) && Holds(nb, State(), v)
        ensures Implies(nb, State(), c).TvTrue?
      {
        KnownIsImplied(nb, State(), tmp, v);
      }
    }

    /**
     Weakens the state to what it has in common with another. When that is the first to be threaded, all
     but the bounds is given up; a threaded state is never changed.
     */
    method MakeUnion(other: Invariants) returns (changed: bool)
      requires Valid() && other.Valid() && other.nb == nb
      modifies this
      ensures Valid()
      ensures old(!threaded && !other.threaded) ==>
        && (forall v :: old(Holds(nb, State(), v) || Holds(nb, other.State(), v)) ==> Holds(nb, State(), v))
        && (!changed ==> forall v :: Holds(nb, State(), v) ==> old(Holds(nb, State(), v)))
        && State() == UnionState(old(State()), old(other.State()))
      ensures old(!threaded && other.threaded) ==>
        changed && State() == Inv([], {}, {}, old(boundsMap), true, false)
      ensures old(threaded) ==> !changed && State() == old(State())
    {
      if other.threaded && !threaded {
        MakeThreaded();
        return true;
      }
      if threaded {
        return false;
      }
      if other.isFalse {
        return false;
      }
      if isFalse {
        isFalse := false;
        eqSet, leSet, neSet, boundsMap := other.eqSet, other.leSet, other.neSet, other.boundsMap;
        return true;
      }
      ghost var a, b := State(), other.State();
      var oldRoots, oldNe, oldLe := CountRoots(eqSet), |neSet|, |leSet|;
      changed := Weaken(other.State());
      if oldRoots != CountRoots(eqSet) || oldNe != |neSet| || oldLe != |leSet| {
        changed := true;
      }
      forall v
        ensures Holds(nb, a, v) || Holds(nb, b, v) ==> Holds(nb, State(), v)
        ensures !changed && Holds(nb, State(), v) ==> Holds(nb, a, v)
      {
        if Holds(nb, a, v) || Holds(nb, b, v) {
          UnionIsWeaker(nb, a, b, State(), v);
        }
        if !changed && Holds(nb, State(), v) {
          UnionUnchanged(nb, a, b, State(), v);
        }
      }
    }

    /** Intersects all parts; tells whether the bounds changed. */
    method Weaken(b: Inv) returns (changed: bool)
      requires Valid() && Flat(b.eq)
      modifies this
      ensures Valid() && threaded == old(threaded) && isFalse == old(isFalse)
      ensures eqSet == Intersected(old(eqSet), b.eq) && leSet == old(leSet) * b.le && neSet == old(neSet) * b.ne
      ensures boundsMap == UnionBounds(old(boundsMap), b.bounds)
      ensures changed <==> boundsMap != old(boundsMap)
    {
      eqSet := Intersected(eqSet, b.eq);
      FlatIsShallow(eqSet);
      neSet := IntersectPairs(neSet, b.ne);
      leSet := IntersectPairs(leSet, b.le);
      boundsMap, changed := MakeUnionBoundsMap(boundsMap, b.bounds);
    }

    /** Forgets all about one object. */
    method Modifies(n: nat)
      requires Valid()
      modifies this
      ensures Valid() && isFalse == old(isFalse) && threaded == old(threaded)
      ensures eqSet == Isolated(old(eqSet), n) && boundsMap == old(boundsMap) - {n}
      ensures leSet == Without(old(leSet), n) && neSet == Without(old(neSet), n)
    {
      IsolatedIsAlone(eqSet, n);
      eqSet := Isolated(eqSet, n);
      neSet := RemovePairs(neSet, n);
      leSet := RemovePairs(leSet, n);
      boundsMap := boundsMap - {n};
    }

    /** Forgets all that an assignment to the left-hand side may change. */
    method ModifiesLhs(lhs: Lhs)
      requires Valid()
      modifies this
      ensures Valid() && isFalse == old(isFalse) && Forgotten(nb, old(State()), State(), Targets(lhs))
      ensures State() == Forgot(nb, old(State()), lhs)
      decreases lhs
    {
      match lhs
      case Symbol(name) =>
        var n := nb.number(Variable(name));
        if n.Some? {
          Modifies(n.value);
        }
        SymbolForgotten(nb, old(State()), State(), name);
      case Element =>
        NothingForgotten(nb, State());
      case Choice(first, second) =>
        ModifiesLhs(first);
        ModifiesLhs(second);
    }

    /** The value a variable is known to have: by its bounds, or by a constant it is equal to. */
    method GetConstant(n: nat) returns (r: Option<int>)
      requires Valid()
      ensures r.Some? ==> ConstantOf(nb, State(), n, r.value)
      ensures r.None? ==> forall c :: !ConstantOf(nb, State(), n, c)
    {
      if n in boundsMap {
        var b := boundsMap[n];
        if b.lower.Some? && b.upper == b.lower {
          return Some(b.lower.value);
        }
      }
      var root := Find(eqSet, n);
      for i := 0 to |eqSet|
        invariant forall k: nat :: k < i && SameSet(eqSet, k, n) ==> !nb.objectAt(k).Number?
      {
        if Find(eqSet, i) == root {
          var o := nb.objectAt(i);
          if o.Number? {
            return Some(o.value);
          }
        }
      }
      return None;
    }

    /** A right-hand side with its value for it, if it is a variable with a known value. */
    method Simplify(t: Term) returns (r: Term)
      requires Valid()
      ensures forall v :: Holds(nb, State(), v) ==> TermValue(r, v) == TermValue(t, v)
      ensures Simplified(nb, State(), t, r)
      ensures HasConstant(nb, State(), t) ==> r.Obj? && r.obj.Number?
    {
      r := t;
      if t.Obj? && t.obj.Variable? {
        var n := GetObject(nb, t);
        if n.Some? {
          var c := GetConstant(n.value);
          if c.Some? {
            r := Obj(Number(c.value));
            forall v | Holds(nb, State(), v)
              ensures TermValue(t, v) == c.value
            {
              ObjectHasValue(nb, t, v);
              ConstantOfIsSound(nb, State(), n.value, c.value, v);
            }
          }
        }
      }
    }

    /**
     Carries the state over an assignment. Every outcome is allowed; and what is assigned to a tracked
     variable from a constant or another tracked variable is known afterwards.
     */
    method Assignment(lhs: Lhs, rhs: Term)
      requires Valid()
      modifies this
      ensures Valid() && AllOutcomes(nb, old(State()), State(), lhs, rhs)
      ensures Flat(old(eqSet)) && Extends(Forgot(nb, old(State()), lhs), State())
      ensures lhs.Symbol? && GetObject(nb, LhsTerm(lhs)).Some? && GetObject(nb, rhs).Some? && rhs != LhsTerm(lhs) ==>
                forall v :: Holds(nb, State(), v) ==> TermValue(LhsTerm(lhs), v) == TermValue(rhs, v)
    {
      var value := Simplify(rhs);
      ModifiesLhs(lhs);
      ghost var middle := State();
      Strengthen(Equal(LhsTerm(lhs), value));
      AssignmentSound(nb, old(State()), middle, State(), lhs, rhs, value);
      if lhs.Symbol? && GetObject(nb, LhsTerm(lhs)).Some? && GetObject(nb, rhs).Some? && rhs != LhsTerm(lhs) {
        assert Exact(nb, Nnf(Equal(LhsTerm(lhs), value), false));
        forall v | Holds(nb, State(), v)
          ensures TermValue(LhsTerm(lhs), v) == TermValue(rhs, v)
        {
          assert Eval(Equal(LhsTerm(lhs), value), v);
          ValueStays(nb, old(State()), middle, lhs.name, rhs, value, v);
        }
      }
    }
  }

  /** Whichever target gets the value of the right-hand side, the state allows the outcome. */
  ghost predicate AllOutcomes(nb: Numbering, before: Inv, after: Inv, lhs: Lhs, rhs: Term) {
    forall target, v, v' ::
      AssignedTo(target, TermValue(rhs, v), v, v') && target in Targets(lhs) && Holds(nb, before, v) ==>
      Holds(nb, after, v')
  }

  /** The term is a variable that the state fixes at some value. */
  ghost predicate HasConstant(nb: Numbering, s: Inv, t: Term)
    requires Shallow(s.eq)
  {
    && t.Obj? && t.obj.Variable? && nb.number(t.obj).Some?
    && exists c :: ConstantOf(nb, s, nb.number(t.obj).value, c)
  }

  /** The term is the right-hand side, or a constant the state fixes it at. */
  ghost predicate Simplified(nb: Numbering, s: Inv, t: Term, r: Term)
    requires Shallow(s.eq)
  {
    r == t || (
      && t.Obj? && nb.number(t.obj).Some? && r.Obj? && r.obj.Number?
      && ConstantOf(nb, s, nb.number(t.obj).value, r.obj.value))
  }

  lemma AssignmentSound(nb: Numbering, before: Inv, middle: Inv, after: Inv, lhs: Lhs, rhs: Term, value: Term)
    requires nb.Valid() && Shallow(before.eq) && Simplified(nb, before, rhs, value)
    requires Forgotten(nb, before, middle, Targets(lhs))
    requires forall v :: Holds(nb, middle, v) && Eval(Equal(LhsTerm(lhs), value), v) ==> Holds(nb, after, v)
    requires !Exact(nb, Equal(LhsTerm(lhs), value)) ==> after == middle
    ensures AllOutcomes(nb, before, after, lhs, rhs)
  {
    forall target, v, v' |
      AssignedTo(target, TermValue(rhs, v), v, v') && target in Targets(lhs) && Holds(nb, before, v)
      ensures Holds(nb, after, v')
    {
      assert Holds(nb, middle, v');
      if Exact(nb, Equal(LhsTerm(lhs), value)) {
        OutcomeIsEqual(nb, before, lhs.name, rhs, value, v, v');
      }
    }
  }

  lemma OutcomeIsEqual(
    nb: Numbering, before: Inv, name: string, rhs: Term, value: Term, v: Valuation, v': Valuation)
    requires nb.Valid() && Shallow(before.eq) && Simplified(nb, before, rhs, value) && value.Obj?
    requires Holds(nb, before, v) && AssignedTo(Some(name), TermValue(rhs, v), v, v')
    ensures Eval(Equal(Obj(Variable(name)), value), v')
  {
    if value != rhs {
      ObjectHasValue(nb, rhs, v);
      ConstantOfIsSound(nb, before, nb.number(rhs.obj).value, value.obj.value, v);
    }
  }

  /** The value of another variable is still what it was simplified to. */
  lemma ValueStays(nb: Numbering, before: Inv, middle: Inv, name: string, rhs: Term, value: Term, v: Valuation)
    requires nb.Valid() && Flat(before.eq) && Shallow(before.eq) && Simplified(nb, before, rhs, value)
    requires nb.number(Variable(name)).Some? && GetObject(nb, rhs).Some? && rhs != Obj(Variable(name))
    requires
      var x := nb.number(Variable(name)).value;
      middle.eq == Isolated(before.eq, x) && middle.bounds == before.bounds - {x}
    requires Holds(nb, middle, v)
    ensures TermValue(value, v) == TermValue(rhs, v)
  {
    if value != rhs {
      var x, n := nb.number(Variable(name)).value, nb.number(rhs.obj).value;
      assert nb.objectAt(x) == Variable(name) && nb.objectAt(n) == rhs.obj;
      ConstantOfStays(nb, before, middle, n, value.obj.value, x);
      ConstantOfIsSound(nb, middle, n, value.obj.value, v);
      ObjectHasValue(nb, rhs, v);
    }
  }

  lemma AndIsKnown(nb: Numbering, before: Inv, after: Inv, ops: seq<Cond>, i: nat)
    requires i < |ops| && Extends(before, after)
    ensures (forall k :: 0 <= k < i ==> Known(nb, before, ops[k])) ==>
      forall k :: 0 <= k < i ==> Known(nb, after, ops[k])
  {
    forall k | 0 <= k < i && Known(nb, before, ops[k])
      ensures Known(nb, after, ops[k])
    {
      KnownStays(nb, before, after, ops[k]);
    }
  }

  lemma AndStrengthens(nb: Numbering, start: Inv, before: Inv, after: Inv, ops: seq<Cond>, i: nat)
    requires i < |ops| && AllStrengthened(nb, start, before, And(ops[..i]))
    requires AllStrengthened(nb, before, after, ops[i])
    ensures AllStrengthened(nb, start, after, And(ops[..i + 1]))
  {
    assert ops[..i + 1] == ops[..i] + [ops[i]];
    var shorter, longer := ops[..i], ops[..i + 1];
    assert forall k :: 0 <= k < i ==> longer[k] == shorter[k];
    forall v
      ensures Strengthened(nb, start, after, And(longer), v)
    {
      assert Strengthened(nb, start, before, And(shorter), v) && Strengthened(nb, before, after, ops[i], v);
      assert Eval(And(longer), v) <==> Eval(And(shorter), v) && Eval(ops[i], v);
      assert Exact(nb, And(longer)) <==> Exact(nb, And(shorter)) && Exact(nb, ops[i]);
    }
  }

  // --- where the code falls short ------------------------------------------------------------------------

  /** An equality gives no pairs of other numbers than its own. */
  lemma OthersStay(before: Inv, after: Inv, e: Pair, q: Pair)
    requires EqAdded(before, after, e)
    requires q.0 != e.0 && q.0 != e.1 && q.1 != e.0 && q.1 != e.1
    ensures (q in after.le <==> q in before.le) && (q in after.ne <==> q in before.ne)
  {
    assert q in after.le ==> Derived(e, before.le, q);
    assert q in after.ne ==> Derived(e, before.ne, q);
  }

  /** Without bounds and disequalities, a comparison that is not on record is not answered. */
  lemma OnlyByPairs(nb: Numbering, s: Inv, p: Pair)
    requires nb.Valid() && Shallow(s.eq) && !s.isFalse && s.bounds == map[]
    requires nb.objectAt(p.0).Variable? && nb.objectAt(p.1).Variable?
    requires !SameSet(s.eq, p.0, p.1) && p !in s.le && Swap(p) !in s.le
    ensures ImpliesRec(nb, s, Le(Obj(nb.objectAt(p.0)), Obj(nb.objectAt(p.1)))).TvUnknown?
  {
  }

  /**
   So inequalities are carried over to the two objects of an equality only, not to others equal to these: if
   a <= z and b = c, then adding a = b makes b <= z, and does not make c <= z.
   */
  lemma EqualityMissesOthers(nb: Numbering, before: Inv, after: Inv, a: nat, b: nat, c: nat, z: nat, v: Valuation)
    requires nb.Valid() && EqAdded(before, after, (a, b)) && !before.isFalse && before.bounds == map[]
    requires nb.objectAt(c).Variable? && nb.objectAt(z).Variable?
    requires Shallow(before.eq) && SameSet(before.eq, b, c) && (a, z) in before.le
    requires c != a && c != b && z != a && z != b && (c, z) !in before.le && (z, c) !in before.le
    requires Shallow(after.eq) && !SameSet(after.eq, c, z)
    ensures (b, z) in after.le
    ensures Holds(nb, after, v) ==> nb.ValueOf(c, v) <= nb.ValueOf(z, v)
    ensures ImpliesRec(nb, after, Le(Obj(nb.objectAt(c)), Obj(nb.objectAt(z)))).TvUnknown?
  {
    assert (b, z) in Variants((a, b), (a, z));
    PutTogetherJoins(before.eq, a, b);
    assert SameSet(after.eq, b, c);
    OthersStay(before, after, (a, b), (c, z));
    OthersStay(before, after, (a, b), (z, c));
    OnlyByPairs(nb, after, (c, z));
    assert Holds(nb, after, v) ==> nb.ValueOf(b, v) == nb.ValueOf(c, v) && nb.ValueOf(b, v) <= nb.ValueOf(z, v);
  }

  /** Of two objects related by `<=`, it is not known that the other one is not less. */
  lemma LtIsNotRefuted(nb: Numbering, s: Inv, p: Pair, v: Valuation)
    requires nb.Valid() && Shallow(s.eq) && !s.isFalse && s.bounds == map[] && s.ne == {}
    requires nb.objectAt(p.0).Variable? && nb.objectAt(p.1).Variable?
    requires !SameSet(s.eq, p.0, p.1) && p !in s.le && Swap(p) in s.le
    ensures Holds(nb, s, v) ==> nb.ValueOf(p.1, v) <= nb.ValueOf(p.0, v)
    ensures ImpliesRec(nb, s, Lt(Obj(nb.objectAt(p.0)), Obj(nb.objectAt(p.1)))).TvUnknown?
  {
    assert Holds(nb, s, v) ==> nb.ValueOf(Swap(p).0, v) <= nb.ValueOf(Swap(p).1, v);
  }

  /** Bounds are not carried over at all. */
  lemma BoundsAreNotShared(nb: Numbering, s: Inv, v: Valuation)
    requires nb.Valid() && nb.objectAt(0).Variable? && nb.objectAt(1).Variable?
    requires s == Inv([0, 0], {}, {}, map[0 := Interval(Some(5), None)], false, false)
    ensures Shallow(s.eq) && SameSet(s.eq, 0, 1)
    ensures Holds(nb, s, v) ==> 5 <= nb.ValueOf(1, v)
    ensures ImpliesRec(nb, s, Le(Obj(Number(5)), Obj(nb.objectAt(1)))).TvUnknown?
  {
    assert Flat(s.eq);
    FlatIsShallow(s.eq);
    var five := nb.number(Number(5)).value;
    assert nb.objectAt(five) == Number(5);
    assert Holds(nb, s, v) ==> nb.ValueOf(1, v) == nb.ValueOf(0, v);
  }

  /** The first bound of an unsigned variable hides that it is not negative. */
  lemma SignIsForgotten(nb: Numbering, before: Inv, after: Inv, n: nat)
    requires nb.Valid() && nb.objectAt(n).Variable? && nb.unsigned(nb.objectAt(n).name)
    requires before == Inv([], {}, {}, map[], false, false)
    requires after == before.(bounds := map[n := IntersectWith(BoundsOr(map[], n), Interval(None, Some(5)))])
    ensures Shallow(before.eq) && Shallow(after.eq)
    ensures ImpliesRec(nb, before, Le(ZERO, Obj(nb.objectAt(n)))).TvTrue?
    ensures ImpliesRec(nb, after, Le(ZERO, Obj(nb.objectAt(n)))).TvUnknown?
  {
    assert Flat(before.eq);
    FlatIsShallow(before.eq);
    var zero := nb.number(Number(0)).value;
    assert nb.objectAt(zero) == Number(0);
  }

  /** The bounds of an object say nothing that a well-typed valuation could fail. */
  predicate Trivial(nb: Numbering, o: Object, i: Interval) {
    match o
    case Number(value) => In(i, value)
    case Variable(name) => i.upper.None? && (i.lower.None? || (nb.unsigned(name) && i.lower.value <= 0))
  }

  predicate TrivialBounds(nb: Numbering, bounds: map<nat, Interval>) {
    forall n :: n in bounds ==> Trivial(nb, nb.objectAt(n), bounds[n])
  }

  /** A value outside the bounds of a variable. */
  function Outside(i: Interval): int {
    if i.upper.Some? then (if i.upper.value < 0 then 0 else i.upper.value + 1)
    else if i.lower.Some? then i.lower.value - 1
    else 0
  }

  /**
   Making a state true leaves its bounds as they are. It then allows everything exactly if these said
   nothing before.
   */
  lemma MadeTrueIsTrueExactly(nb: Numbering, bounds: map<nat, Interval>, threaded: bool)
    requires nb.Valid()
    ensures (forall v :: WellTyped(nb, v) ==> Holds(nb, Inv([], {}, {}, bounds, threaded, false), v)) <==>
      TrivialBounds(nb, bounds)
  {
    var s := Inv([], {}, {}, bounds, threaded, false);
    if TrivialBounds(nb, bounds) {
      forall v | WellTyped(nb, v)
        ensures Holds(nb, s, v)
      {
        assert forall n :: n in bounds ==> Typed(nb, nb.objectAt(n), v);
      }
    } else {
      var n :| n in bounds && !Trivial(nb, nb.objectAt(n), bounds[n]);
      var o := nb.objectAt(n);
      var w := if o.Variable? && nb.unsigned(o.name) && bounds[n].upper.None? then 0 else Outside(bounds[n]);
      var v := Valuation(x => if o == Variable(x) then w else 0, _ => 0, _ => false);
      assert WellTyped(nb, v);
      assert nb.ValueOf(n, v) == if o.Variable? then w else o.value;
      assert !In(bounds[n], nb.ValueOf(n, v));
    }
  }
}
