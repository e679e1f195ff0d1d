/**
 Reaching definitions by bit ranges: which instructions may have last written which bits of
 which variables. Ranges are split in place and kept as identifiers into a shared container.
 */
module ReachingDefinitions {
  import opened Cfg
  import opened Options
  import opened SortedSets
  import opened Words
  import opened GotoProgram
  import opened AbstractInterpreter
  import opened AhistoricalHistory
  import opened ThreeValued

  // --- definitions and their bits ----------------------------------------------------------

  /** The end of a bit range; an unknown end is unbounded. */
  datatype End = Bit(at: nat) | Unknown

  datatype Definition = Definition(identifier: string, definitionAt: nat, bitBegin: nat, bitEnd: End)

  datatype BitRange = BitRange(begin: nat, end: End)

  predicate InRange(begin: nat, end: End, b: nat) {
    begin <= b && (end.Bit? ==> b < end.at)
  }

  predicate CoversBit(d: Definition, b: nat) {
    InRange(d.bitBegin, d.bitEnd, b)
  }

  /** The order in which the container keeps the definitions of one variable. */
  predicate Less(a: Definition, b: Definition) {
    if a.definitionAt != b.definitionAt then a.definitionAt < b.definitionAt
    else if a.bitBegin != b.bitBegin then a.bitBegin < b.bitBegin
    else if a.bitEnd.Unknown? != b.bitEnd.Unknown? then a.bitEnd.Unknown?
    else a.bitEnd.Bit? && a.bitEnd.at < b.bitEnd.at
  }

  /** Looking a definition up by the order finds that definition and no other. */
  lemma OrderIsStrictAndTotal(a: Definition, b: Definition, c: Definition)
    ensures !Less(a, a)
    ensures Less(a, b) && Less(b, c) ==> Less(a, c)
    ensures a.identifier == b.identifier && !Less(a, b) && !Less(b, a) ==> a == b
  {
  }

  function Key(d: Definition): seq<nat> {
    [d.definitionAt] + ([d.bitBegin] + [if d.bitEnd.Unknown? then 0 else d.bitEnd.at + 1])
  }

  predicate Earlier(m: nat, n: nat) {
    m < n
  }

  lemma FirstDecides(m: nat, n: nat, a: seq<nat>, b: seq<nat>)
    ensures WordLess([m] + a, [n] + b, Earlier, true) <==> m < n || (m == n && WordLess(a, b, Earlier, true))
  {
    if m == n {
      SameStart(m, a, b, Earlier, true);
    } else {
      OtherStart([m] + a, [n] + b, Earlier, true);
    }
  }

  /** It is by instruction, then by the start of the range, then by its end, an unknown end coming first. */
  lemma OrderIsLexicographic(a: Definition, b: Definition)
    ensures Less(a, b) <==> WordLess(Key(a), Key(b), Earlier, true)
  {
    var m, n := if a.bitEnd.Unknown? then 0 else a.bitEnd.at + 1, if b.bitEnd.Unknown? then 0 else b.bitEnd.at + 1;
    FirstDecides(a.definitionAt, b.definitionAt, [a.bitBegin] + [m], [b.bitBegin] + [n]);
    FirstDecides(a.bitBegin, b.bitBegin, [m], [n]);
    FirstDecides(m, n, [], []);
    EmptyWord<nat>([], [], Earlier, true);
    assert [m] + [] == [m] && [n] + [] == [n];
  }

  // --- the container -------------------------------------------------------------------------

  /** The number a two-level map gives a definition. */
  function Lookup(valueMap: map<string, map<Definition, nat>>, d: Definition): Option<nat> {
    if d.identifier in valueMap && d in valueMap[d.identifier] then Some(valueMap[d.identifier][d]) else None
  }

  /** Numbers the definitions it is given; a number keeps its meaning as others are added. */
  class DefinitionContainer {
    var values: seq<Definition>
    var valueMap: map<string, map<Definition, nat>>

    ghost predicate Valid()
      reads this
    {
      && (forall i :: 0 <= i < |values| ==> Lookup(valueMap, values[i]) == Some(i))
      && (forall d :: Lookup(valueMap, d).Some? ==>
            Lookup(valueMap, d).value < |values| && values[Lookup(valueMap, d).value] == d)
    }

    constructor ()
      ensures Valid() && values == []
    {
      values, valueMap := [], map[];
    }

    method Add(d: Definition) returns (id: nat)
      requires Valid()
      modifies this
      ensures Valid()
      ensures old(values) <= values
      ensures id < |values| && values[id] == d
      ensures values == if d in old(values) then old(values) else old(values) + [d]
    {
      var inner: map<Definition, nat> := if d.identifier in valueMap then valueMap[d.identifier] else map[];
      if d in inner {
        id := inner[d];
        assert Lookup(valueMap, d) == Some(id);
      } else {
        assert Lookup(valueMap, d) == None;
        id := |values|;
        valueMap := valueMap[d.identifier := inner[d := id]];
        values := values + [d];
        assert forall e :: Lookup(valueMap, e) == if e == d then Some(id) else Lookup(old(valueMap), e);
      }
    }

    method Clear()
      modifies this
      ensures Valid() && values == []
    {
      values, valueMap := [], map[];
    }

    /** Two numbers never stand for the same definition. */
    lemma IsInjective()
      requires Valid()
      ensures Injective(values)
    {
      forall i, j | 0 <= i < |values| && 0 <= j < |values| && values[i] == values[j]
        ensures i == j
      {
        assert Lookup(valueMap, values[i]) == Some(i) && Lookup(valueMap, values[j]) == Some(j);
      }
    }
  }

  ghost predicate Injective(vals: seq<Definition>) {
    forall i, j :: 0 <= i < |vals| && 0 <= j < |vals| && vals[i] == vals[j] ==> i == j
  }

  ghost predicate Known(vals: seq<Definition>, ids: seq<nat>) {
    forall i :: 0 <= i < |ids| ==> ids[i] < |vals|
  }

  ghost function Decode(vals: seq<Definition>, ids: seq<nat>): set<Definition>
    requires Known(vals, ids)
  {
    set i | 0 <= i < |ids| :: vals[ids[i]]
  }

  /** Numbers held elsewhere keep their meaning when the container grows. */
  lemma DecodeStays(vals: seq<Definition>, vals': seq<Definition>, ids: seq<nat>)
    requires vals <= vals' && Known(vals, ids)
    ensures Known(vals', ids) && Decode(vals', ids) == Decode(vals, ids)
  {
    assert forall i :: 0 <= i < |ids| ==> vals'[ids[i]] == vals[ids[i]];
  }

  ghost predicate AllKnown(vals: seq<Definition>, values: map<string, seq<nat>>) {
    forall x :: x in values ==> Sorted(values[x]) && Known(vals, values[x])
  }

  /** The sets of definitions that the numbers of each variable stand for. */
  ghost function DecodeAll(vals: seq<Definition>, values: map<string, seq<nat>>): Values
    requires AllKnown(vals, values)
  {
    map x | x in values :: Decode(vals, values[x])
  }

  lemma DecodeAllStays(vals: seq<Definition>, vals': seq<Definition>, values: map<string, seq<nat>>)
    requires vals <= vals' && AllKnown(vals, values)
    ensures AllKnown(vals', values) && DecodeAll(vals', values) == DecodeAll(vals, values)
  {
    forall x | x in values
      ensures Known(vals', values[x]) && Decode(vals', values[x]) == Decode(vals, values[x])
    {
      DecodeStays(vals, vals', values[x]);
    }
  }

  lemma DecodeAllUpdate(
    vals: seq<Definition>, vals': seq<Definition>, values: map<string, seq<nat>>, x: string, ids: seq<nat>)
    requires vals <= vals' && AllKnown(vals, values) && Sorted(ids) && Known(vals', ids)
    ensures AllKnown(vals', values[x := ids])
    ensures DecodeAll(vals', values[x := ids]) == DecodeAll(vals, values)[x := Decode(vals', ids)]
  {
    DecodeAllStays(vals, vals', values);
  }

  lemma DecodeSplit(vals: seq<Definition>, a: seq<nat>, b: seq<nat>)
    requires Known(vals, a) && Known(vals, b)
    ensures Known(vals, a + b) && Decode(vals, a + b) == Decode(vals, a) + Decode(vals, b)
  {
    var c := a + b;
    forall i | 0 <= i < |b|
      ensures vals[b[i]] == vals[c[i + |a|]]
    {
    }
    forall i | 0 <= i < |a|
      ensures vals[a[i]] == vals[c[i]]
    {
    }
  }

  lemma DecodeElements(vals: seq<Definition>, a: seq<nat>, b: seq<nat>, c: seq<nat>)
    requires Known(vals, a) && Known(vals, b)
    requires forall x :: x in c <==> x in a || x in b
    ensures Known(vals, c) && Decode(vals, c) == Decode(vals, a) + Decode(vals, b)
  {
    forall i | 0 <= i < |c|
      ensures c[i] < |vals| && vals[c[i]] in Decode(vals, a) + Decode(vals, b)
    {
      assert c[i] in c;
    }
    forall i | 0 <= i < |a|
      ensures vals[a[i]] in Decode(vals, c)
    {
      assert a[i] in c;
    }
    forall i | 0 <= i < |b|
      ensures vals[b[i]] in Decode(vals, c)
    {
      assert b[i] in c;
    }
  }

  // --- killing and generating, on sets of definitions -----------------------------------------

  /** What is left of a definition once the bits from `rs` to `re` are overwritten. */
  function Pieces(d: Definition, rs: nat, re: nat): seq<Definition> {
    if d.bitBegin >= re then [d]
    else if d.bitEnd.Bit? && d.bitEnd.at <= rs then [d]
    else if d.bitBegin >= rs && d.bitEnd.Bit? && d.bitEnd.at <= re then []
    else if d.bitBegin >= rs then [d.(bitBegin := re)]
    else if d.bitEnd.Unknown? || d.bitEnd.at > re then [d.(bitEnd := Bit(rs)), d.(bitBegin := re)]
    else [d.(bitEnd := Bit(rs))]
  }

  lemma PiecesExact(d: Definition, rs: nat, re: nat, b: nat)
    ensures forall q :: q in Pieces(d, rs, re) ==> q.identifier == d.identifier && q.definitionAt == d.definitionAt
    ensures (exists q :: q in Pieces(d, rs, re) && CoversBit(q, b)) <==> CoversBit(d, b) && !(rs <= b < re)
  {
    var ps := Pieces(d, rs, re);
    if CoversBit(d, b) && !(rs <= b < re) {
      var k := if b < rs || |ps| == 1 then 0 else 1;
      assert ps[k] in ps && CoversBit(ps[k], b);
    }
  }

  function PieceSet(d: Definition, rs: nat, re: nat): set<Definition> {
    set q | q in Pieces(d, rs, re)
  }

  function AfterKill(ds: set<Definition>, rs: nat, re: nat): set<Definition> {
    set d, q | d in ds && q in Pieces(d, rs, re) :: q
  }

  lemma AfterKillGrows(ds: set<Definition>, d: Definition, rs: nat, re: nat)
    ensures AfterKill(ds + {d}, rs, re) == AfterKill(ds, rs, re) + PieceSet(d, rs, re)
  {
  }

  type Values = map<string, set<Definition>>

  function DefsOf(values: Values, x: string): set<Definition> {
    if x in values then values[x] else {}
  }

  /** Killing up to an unknown end does nothing. */
  function Killed(values: Values, x: string, rs: nat, end: End): Values {
    if end.Unknown? || x !in values then values
    else values[x := AfterKill(values[x], rs, end.at)]
  }

  /** A range of no bits at the start generates nothing. */
  function Generated(values: Values, at: nat, x: string, rs: nat, end: End): Values {
    if rs == 0 && end == Bit(0) then values
    else values[x := DefsOf(values, x) + {Definition(x, at, rs, end)}]
  }

  /** Some definition of `x` made at `at` covers bit `b`. */
  ghost predicate Covers(values: Values, x: string, at: nat, b: nat) {
    exists d :: d in DefsOf(values, x) && d.definitionAt == at && CoversBit(d, b)
  }

  /** Killing takes away exactly the bits of its range. */
  lemma KillIsExact(values: Values, y: string, rs: nat, end: End, x: string, at: nat, b: nat)
    ensures Covers(Killed(values, y, rs, end), x, at, b) <==>
      Covers(values, x, at, b) && !(x == y && end.Bit? && rs <= b < end.at)
  {
    if x == y && y in values && end.Bit? {
      var before, after := values[y], Killed(values, y, rs, end)[y];
      if Covers(values, x, at, b) && !(rs <= b < end.at) {
        var d :| d in before && d.definitionAt == at && CoversBit(d, b);
        PiecesExact(d, rs, end.at, b);
        var q :| q in Pieces(d, rs, end.at) && CoversBit(q, b);
        assert q in after;
      }
      if Covers(Killed(values, y, rs, end), x, at, b) {
        var q :| q in after && q.definitionAt == at && CoversBit(q, b);
        var d :| d in before && q in Pieces(d, rs, end.at);
        PiecesExact(d, rs, end.at, b);
        assert d in DefsOf(values, x) && d.definitionAt == at;
      }
    }
  }

  /** What the assertion at the start of killing asks of a range. */
  predicate AssertedRange(r: BitRange) {
    r.end.Bit? ==> r.begin < r.end.at
  }

  /** It rejects exactly the finite ranges without bits; killing one takes nothing away. */
  lemma AssertionRejectsExactly(values: Values, y: string, r: BitRange)
    ensures !AssertedRange(r) <==> r.end.Bit? && forall b: nat :: !InRange(r.begin, r.end, b)
    ensures !AssertedRange(r) ==> forall x, at, b ::
      Covers(Killed(values, y, r.begin, r.end), x, at, b) <==> Covers(values, x, at, b)
  {
    if AssertedRange(r) {
      assert InRange(r.begin, r.end, r.begin);
    } else {
      forall x, at, b
        ensures Covers(Killed(values, y, r.begin, r.end), x, at, b) <==> Covers(values, x, at, b)
      {
        KillIsExact(values, y, r.begin, r.end, x, at, b);
      }
    }
  }

  lemma GenIsExact(values: Values, l: nat, y: string, rs: nat, end: End, x: string, at: nat, b: nat)
    ensures Covers(Generated(values, l, y, rs, end), x, at, b) <==>
      Covers(values, x, at, b) || (x == y && at == l && InRange(rs, end, b))
  {
    var after := Generated(values, l, y, rs, end);
    if Covers(values, x, at, b) {
      var d :| d in DefsOf(values, x) && d.definitionAt == at && CoversBit(d, b);
      assert d in DefsOf(after, x);
    }
    if x == y && at == l && InRange(rs, end, b) {
      assert Definition(x, at, rs, end) in DefsOf(after, x);
    }
  }

  function KillAll(values: Values, x: string, ranges: seq<BitRange>): Values {
    if ranges == [] then values
    else
      var m := |ranges| - 1;
      Killed(KillAll(values, x, ranges[..m]), x, ranges[m].begin, ranges[m].end)
  }

  function GenAll(values: Values, at: nat, x: string, ranges: seq<BitRange>): Values {
    if ranges == [] then values
    else
      var m := |ranges| - 1;
      Generated(GenAll(values, at, x, ranges[..m]), at, x, ranges[m].begin, ranges[m].end)
  }

  /** One of the ranges contains the bit. */
  predicate SomeRange(ranges: seq<BitRange>, b: nat) {
    exists i :: 0 <= i < |ranges| && InRange(ranges[i].begin, ranges[i].end, b)
  }

  predicate SomeFiniteRange(ranges: seq<BitRange>, b: nat) {
    exists i :: 0 <= i < |ranges| && ranges[i].end.Bit? && InRange(ranges[i].begin, ranges[i].end, b)
  }

  lemma {:induction false} KillAllIsExact(values: Values, y: string, ranges: seq<BitRange>, x: string, at: nat, b: nat)
    ensures Covers(KillAll(values, y, ranges), x, at, b) <==>
      Covers(values, x, at, b) && !(x == y && SomeFiniteRange(ranges, b))
  {
    if ranges != [] {
      var m := |ranges| - 1;
      KillAllIsExact(values, y, ranges[..m], x, at, b);
      KillIsExact(KillAll(values, y, ranges[..m]), y, ranges[m].begin, ranges[m].end, x, at, b);
      assert forall i :: 0 <= i < m ==> ranges[..m][i] == ranges[i];
    }
  }

  lemma {:induction false} GenAllIsExact(
    values: Values, l: nat, y: string, ranges: seq<BitRange>, x: string, at: nat, b: nat)
    ensures Covers(GenAll(values, l, y, ranges), x, at, b) <==>
      Covers(values, x, at, b) || (x == y && at == l && SomeRange(ranges, b))
  {
    if ranges != [] {
      var m := |ranges| - 1;
      GenAllIsExact(values, l, y, ranges[..m], x, at, b);
      GenIsExact(GenAll(values, l, y, ranges[..m]), l, y, ranges[m].begin, ranges[m].end, x, at, b);
      assert forall i :: 0 <= i < m ==> ranges[..m][i] == ranges[i];
    }
  }

  // --- instructions ----------------------------------------------------------------------------

  datatype WrittenObject = WrittenObject(symbol: string, ranges: seq<BitRange>)

  /** What an instruction does to variables; a skipped call writes its left-hand side. */
  datatype Effect =
    | Writes(objects: seq<WrittenObject>)
    | Dead(symbol: string)
    | ThreadStart
    | NoEffect

  /** The facts the analysis takes from elsewhere. */
  datatype Context = Context(
    effects: seq<Effect>,
    symbols: set<string>,
    shared: set<string>,
    dirty: set<string>,
    threaded: set<nat>)

  predicate OtherThreadsMayWrite(ctx: Context, at: nat, x: string) {
    at in ctx.threaded && (x in ctx.shared || x in ctx.dirty)
  }

  function AssignObject(ctx: Context, values: Values, at: nat, o: WrittenObject, mustAlias: bool): Values {
    if o.symbol !in ctx.symbols then values
    else
      var killed :=
        if mustAlias && !OtherThreadsMayWrite(ctx, at, o.symbol) then KillAll(values, o.symbol, o.ranges) else values;
      GenAll(killed, at, o.symbol, o.ranges)
  }

  function AssignAll(ctx: Context, values: Values, at: nat, objects: seq<WrittenObject>, mustAlias: bool): Values {
    if objects == [] then values
    else
      var m := |objects| - 1;
      AssignObject(ctx, AssignAll(ctx, values, at, objects[..m], mustAlias), at, objects[m], mustAlias)
  }

  function AfterThreadStart(ctx: Context, values: Values): Values {
    map x | x in values && (x in ctx.shared || x in ctx.dirty) :: values[x]
  }

  function TransformValues(ctx: Context, at: nat, values: Values): Values {
    if at >= |ctx.effects| then values
    else
      match ctx.effects[at]
      case Writes(objects) => AssignAll(ctx, values, at, objects, |objects| == 1)
      case Dead(x) => values - {x}
      case ThreadStart => AfterThreadStart(ctx, values)
      case NoEffect => values
  }

  // --- the domain object -------------------------------------------------------------------------

  datatype RdState = RdState(hasValues: Tvt, values: Values)

  function Union(a: Values, b: Values): Values {
    map x | x in a.Keys + b.Keys :: DefsOf(a, x) + DefsOf(b, x)
  }

  function Merge(dest: RdState, src: RdState): (RdState, bool) {
    var joined := Union(dest.values, src.values);
    (RdState(TvUnknown, joined), dest.hasValues.TvFalse? || joined != dest.values)
  }

  /** Inserts one ordered set into another in one walk; tells whether anything was new. */
  method MergeInner(dest: seq<nat>, other: seq<nat>) returns (r: seq<nat>, more: bool)
    requires Sorted(dest) && Sorted(other)
    ensures Sorted(r)
    ensures forall x :: x in r <==> x in dest || x in other
    ensures more <==> !(forall x :: x in other ==> x in dest)
  {
    r, more := dest, false;
    var i := 0;
    for j := 0 to |other|
      invariant i <= |r| && Sorted(r)
      invariant forall x :: x in r <==> x in dest || x in other[..j]
      invariant more <==> !(forall x :: x in other[..j] ==> x in dest)
      invariant j > 0 && i > 0 ==> forall k :: 0 <= k < i ==> r[k] <= other[j - 1]
      invariant j == 0 ==> i == 0
    {
      var id := other[j];
      assert other[..j + 1] == other[..j] + [id];
      while i < |r| && r[i] < id
        invariant i <= |r|
        invariant forall k :: 0 <= k < i ==> r[k] < id
      {
        i := i + 1;
      }
      if i == |r| || id < r[i] {
        BetweenNeighbours(r, i, id);
        assert id !in dest;
        more := true;
        r := InsertAt(r, i, id);
      }
      i := i + 1;
    }
    assert other[..|other|] == other;
  }

  function InsertAt(s: seq<nat>, i: nat, x: nat): (r: seq<nat>)
    requires Sorted(s) && i <= |s|
    requires forall k :: 0 <= k < i ==> s[k] < x
    requires i < |s| ==> x < s[i]
    ensures Sorted(r) && |r| == |s| + 1 && r[..i] == s[..i] && r[i] == x
    ensures forall y :: y in r <==> y in s || y == x
  {
    assert s == s[..i] + s[i..];
    s[..i] + [x] + s[i..]
  }

  /** Adds the number of a definition to a set of numbers. */
  method Note(container: DefinitionContainer, v: Definition, ids: seq<nat>) returns (r: seq<nat>)
    requires container.Valid() && Sorted(ids) && Known(container.values, ids)
    modifies container
    ensures container.Valid() && old(container.values) <= container.values
    ensures Sorted(r) && Known(container.values, r)
    ensures Decode(container.values, r) == old(Decode(container.values, ids)) + {v}
  {
    var id := container.Add(v);
    DecodeStays(old(container.values), container.values, ids);
    r := Insert(ids, id);
    DecodeElements(container.values, ids, [id], r);
    assert Decode(container.values, [id]) == {container.values[[id][0]]};
  }

  /** Cuts the bits out of one definition; says whether it stays, and numbers what is left otherwise. */
  method Cut(container: DefinitionContainer, v: Definition, rs: nat, re: nat, newValues: seq<nat>)
    returns (stays: bool, r: seq<nat>)
    requires container.Valid() && Sorted(newValues) && Known(container.values, newValues)
    modifies container
    ensures container.Valid() && old(container.values) <= container.values
    ensures Sorted(r) && Known(container.values, r)
    ensures stays ==> Pieces(v, rs, re) == [v] && r == newValues
    ensures !stays ==> Decode(container.values, r) ==
                         old(Decode(container.values, newValues)) + PieceSet(v, rs, re)
  {
    if v.bitBegin >= re {
      return true, newValues;
    } else if v.bitEnd.Bit? && v.bitEnd.at <= rs {
      return true, newValues;
    }
    stays := false;
    if v.bitBegin >= rs && v.bitEnd.Bit? && v.bitEnd.at <= re {
      r := newValues;
    } else if v.bitBegin >= rs {
      r := Note(container, v.(bitBegin := re), newValues);
    } else if v.bitEnd.Unknown? || v.bitEnd.at > re {
      r := Note(container, v.(bitEnd := Bit(rs)), newValues);
      r := Note(container, v.(bitBegin := re), r);
    } else {
      r := Note(container, v.(bitEnd := Bit(rs)), newValues);
    }
  }

  /** Handles the number at one position: steps over it, or erases it there. */
  method CutNext(
    container: DefinitionContainer, ids: seq<nat>, i: nat, newValues: seq<nat>, rs: nat, re: nat,
    ghost vals: seq<Definition>, ghost original: seq<nat>, ghost k: nat)
    returns (ids': seq<nat>, i': nat, newValues': seq<nat>)
    requires container.Valid() && vals <= container.values && Sorted(ids) && Sorted(newValues)
    requires i < |ids| && k < |original| && ids[i..] == original[k..]
    requires CutSoFar(vals, container.values, original, k, ids[..i], newValues, rs, re)
    modifies container
    ensures container.Valid() && old(container.values) <= container.values && Sorted(ids') && Sorted(newValues')
    ensures i' <= |ids'| && ids'[i'..] == original[k + 1..]
    ensures CutSoFar(vals, container.values, original, k + 1, ids'[..i'], newValues', rs, re)
  {
    assert ids[i] == ids[i..][0] == original[k];
    var stays;
    stays, newValues' := Cut(container, container.values[ids[i]], rs, re, newValues);
    CutStep(vals, old(container.values), container.values, original, k, ids[..i], newValues, stays, newValues', rs, re);
    if stays {
      ids', i' := ids, i + 1;
      assert ids[..i + 1] == ids[..i] + [ids[i]];
    } else {
      ids', i' := Erase(ids, i), i;
    }
  }

  /** Walks a set of numbers, erasing those whose definitions are hit. */
  method CutAll(container: DefinitionContainer, original: seq<nat>, rs: nat, re: nat)
    returns (ids: seq<nat>, newValues: seq<nat>)
    requires container.Valid() && Sorted(original) && Known(container.values, original)
    modifies container
    ensures container.Valid() && old(container.values) <= container.values
    ensures Sorted(ids) && Sorted(newValues)
    ensures CutSoFar(old(container.values), container.values, original, |original|, ids, newValues, rs, re)
  {
    ids, newValues := original, [];
    var i: nat := 0;
    ghost var k := 0;
    while i < |ids|
      invariant i <= |ids| && k <= |original| && ids[i..] == original[k..]
      invariant container.Valid() && old(container.values) <= container.values
      invariant Sorted(ids) && Sorted(newValues)
      invariant CutSoFar(old(container.values), container.values, original, k, ids[..i], newValues, rs, re)
      decreases |original| - k
    {
      ids, i, newValues := CutNext(container, ids, i, newValues, rs, re, old(container.values), original, k);
      k := k + 1;
    }
    assert ids[..i] == ids && k == |original|;
  }

  /** The definitions of the first `k` numbers are cut, into those still in place and those added. */
  ghost predicate CutSoFar(
    vals: seq<Definition>, now: seq<Definition>, original: seq<nat>, k: nat, kept: seq<nat>, added: seq<nat>,
    rs: nat, re: nat)
  {
    && Known(vals, original) && k <= |original| && Known(now, kept) && Known(now, added)
    && Decode(now, kept) + Decode(now, added) == AfterKill(Decode(vals, original[..k]), rs, re)
  }

  lemma CutStep(
    vals: seq<Definition>, seen: seq<Definition>, now: seq<Definition>, original: seq<nat>, k: nat, kept: seq<nat>,
    added: seq<nat>, stays: bool, added': seq<nat>, rs: nat, re: nat)
    requires vals <= seen <= now && k < |original|
    requires CutSoFar(vals, seen, original, k, kept, added, rs, re) && Known(now, added')
    requires stays ==> Pieces(seen[original[k]], rs, re) == [seen[original[k]]] && added' == added
    requires !stays ==> Decode(now, added') == Decode(seen, added) + PieceSet(seen[original[k]], rs, re)
    ensures CutSoFar(vals, now, original, k + 1, if stays then kept + [original[k]] else kept, added', rs, re)
  {
    var d := seen[original[k]];
    var all := AfterKill(Decode(vals, original[..k]), rs, re);
    assert AfterKill(Decode(vals, original[..k + 1]), rs, re) == all + PieceSet(d, rs, re) by {
      OneMore(vals, seen, original, k, rs, re);
    }
    DecodeStays(seen, now, kept);
    if stays {
      DecodeStays(seen, now, added);
      assert Decode(now, kept + [original[k]]) == Decode(now, kept) + {d} by {
        DecodeSplit(now, kept, [original[k]]);
        assert [original[k]][0] == original[k];
        assert Decode(now, [original[k]]) == {d};
      }
      assert Known(now, kept + [original[k]]);
      assert PieceSet(d, rs, re) == {d} by {
        assert Pieces(d, rs, re) == [d];
      }
    }
  }

  lemma OneMore(
    vals: seq<Definition>, seen: seq<Definition>, original: seq<nat>, k: nat, rs: nat, re: nat)
    requires vals <= seen && Known(vals, original) && k < |original|
    ensures AfterKill(Decode(vals, original[..k + 1]), rs, re) ==
      AfterKill(Decode(vals, original[..k]), rs, re) + PieceSet(seen[original[k]], rs, re)
  {
    var d := vals[original[k]];
    assert original[..k + 1] == original[..k] + [original[k]];
    DecodeSplit(vals, original[..k], [original[k]]);
    AfterKillGrows(Decode(vals, original[..k]), d, rs, re);
  }

  class RdRangeDomain {
    const container: DefinitionContainer
    var hasValues: Tvt
    var values: map<string, seq<nat>>

    ghost predicate Valid()
      reads this, container
    {
      container.Valid() && AllKnown(container.values, values)
    }

    /** The sets of definitions the numbers stand for. */
    ghost function Contents(): Values
      requires Valid()
      reads this, container
    {
      DecodeAll(container.values, values)
    }

    ghost function State(): RdState
      requires Valid()
      reads this, container
    {
      RdState(hasValues, Contents())
    }

    constructor (container: DefinitionContainer)
      requires container.Valid()
      ensures this.container == container && Valid()
      ensures State() == RdState(TvFalse, map[])
    {
      this.container := container;
      hasValues, values := TvFalse, map[];
    }

    /** Overwrites the bits from `rs` up to the end in all definitions of one variable. */
    method Kill(x: string, rs: nat, end: End)
      requires Valid()
      modifies this, container
      ensures Valid() && old(container.values) <= container.values && hasValues == old(hasValues)
      ensures Contents() == Killed(old(Contents()), x, rs, end)
    {
      if end.Unknown? || x !in values {
        return;
      }
      var ids, newValues := CutAll(container, values[x], rs, end.at);
      var merged, _ := MergeInner(ids, newValues);
      DecodeElements(container.values, ids, newValues, merged);
      assert values[x][..|values[x]|] == values[x];
      DecodeAllUpdate(old(container.values), container.values, values, x, merged);
      values := values[x := merged];
    }

    /** Records that the instruction at `at` writes these bits. */
    method Gen(at: nat, x: string, rs: nat, end: End) returns (more: bool)
      requires Valid()
      modifies this, container
      ensures Valid() && old(container.values) <= container.values && hasValues == old(hasValues)
      ensures Contents() == Generated(old(Contents()), at, x, rs, end)
    {
      if rs == 0 && end == Bit(0) {
        return false;
      }
      var ids := if x in values then values[x] else [];
      assert Decode(container.values, ids) == DefsOf(Contents(), x);
      var merged := Note(container, Definition(x, at, rs, end), ids);
      more := merged != ids;
      DecodeAllUpdate(old(container.values), container.values, values, x, merged);
      values := values[x := merged];
    }

    /** The start of an analysis: nothing is defined, and the container is emptied. */
    method MakeEntry()
      requires Valid()
      modifies this, container
      ensures Valid() && State() == RdState(TvTrue, map[]) && container.values == []
    {
      values := map[];
      container.Clear();
      hasValues := TvTrue;
    }

    method KillRanges(x: string, ranges: seq<BitRange>)
      requires Valid()
      modifies this, container
      ensures Valid() && old(container.values) <= container.values && hasValues == old(hasValues)
      ensures Contents() == KillAll(old(Contents()), x, ranges)
    {
      for i := 0 to |ranges|
        invariant Valid() && old(container.values) <= container.values && hasValues == old(hasValues)
        invariant Contents() == KillAll(old(Contents()), x, ranges[..i])
      {
        assert ranges[..i + 1][..i] == ranges[..i];
        Kill(x, ranges[i].begin, ranges[i].end);
      }
      assert ranges[..|ranges|] == ranges;
    }

    method GenRanges(at: nat, x: string, ranges: seq<BitRange>)
      requires Valid()
      modifies this, container
      ensures Valid() && old(container.values) <= container.values && hasValues == old(hasValues)
      ensures Contents() == GenAll(old(Contents()), at, x, ranges)
    {
      for i := 0 to |ranges|
        invariant Valid() && old(container.values) <= container.values && hasValues == old(hasValues)
        invariant Contents() == GenAll(old(Contents()), at, x, ranges[..i])
      {
        assert ranges[..i + 1][..i] == ranges[..i];
        var _ := Gen(at, x, ranges[i].begin, ranges[i].end);
      }
      assert ranges[..|ranges|] == ranges;
    }

    /** Kills, if that is certain, and then records all ranges written to one object. */
    method AssignOne(ctx: Context, at: nat, o: WrittenObject, mustAlias: bool)
      requires Valid()
      modifies this, container
      ensures Valid() && old(container.values) <= container.values && hasValues == old(hasValues)
      ensures Contents() == AssignObject(ctx, old(Contents()), at, o, mustAlias)
    {
      if o.symbol !in ctx.symbols {
        return;
      }
      if mustAlias && !OtherThreadsMayWrite(ctx, at, o.symbol) {
        KillRanges(o.symbol, o.ranges);
      }
      GenRanges(at, o.symbol, o.ranges);
    }

    method TransformAssign(ctx: Context, at: nat, objects: seq<WrittenObject>)
      requires Valid()
      modifies this, container
      ensures Valid() && old(container.values) <= container.values && hasValues == old(hasValues)
      ensures Contents() == AssignAll(ctx, old(Contents()), at, objects, |objects| == 1)
    {
      var mustAlias := |objects| == 1;
      for i := 0 to |objects|
        invariant Valid() && old(container.values) <= container.values && hasValues == old(hasValues)
        invariant Contents() == AssignAll(ctx, old(Contents()), at, objects[..i], mustAlias)
      {
        assert objects[..i + 1][..i] == objects[..i];
        AssignOne(ctx, at, objects[i], mustAlias);
      }
      assert objects[..|objects|] == objects;
    }

    method TransformStartThread(ctx: Context)
      requires Valid()
      modifies this
      ensures Valid() && hasValues == old(hasValues)
      ensures Contents() == AfterThreadStart(ctx, old(Contents()))
    {
      var todo := values.Keys;
      while todo != {}
        invariant hasValues == old(hasValues) && todo <= values.Keys <= old(values).Keys
        invariant forall x :: x in old(values) ==>
          (x in values <==> x in todo || x in ctx.shared || x in ctx.dirty)
        invariant forall x :: x in values ==> values[x] == old(values)[x]
        decreases |todo|
      {
        var x :| x in todo;
        if x !in ctx.shared && x !in ctx.dirty {
          values := values - {x};
        }
        todo := todo - {x};
      }
    }

    /** The effect of one instruction. */
    method Transform(ctx: Context, at: nat)
      requires Valid() && at < |ctx.effects|
      modifies this, container
      ensures Valid() && old(container.values) <= container.values && hasValues == old(hasValues)
      ensures Contents() == TransformValues(ctx, at, old(Contents()))
    {
      match ctx.effects[at]
      case Dead(x) =>
        values := values - {x};
      case ThreadStart =>
        TransformStartThread(ctx);
      case Writes(objects) =>
        TransformAssign(ctx, at, objects);
      case NoEffect =>
    }

    /** Joins the numbers of one variable of another state into this one. */
    method JoinEntry(x: string, ids: seq<nat>) returns (more: bool)
      requires Valid() && Sorted(ids) && Known(container.values, ids)
      modifies this`values
      ensures Valid() && x in values && values == old(values)[x := values[x]]
      ensures Contents() == old(Contents())[x := DefsOf(old(Contents()), x) + Decode(container.values, ids)]
      ensures more <==> Contents() != old(Contents())
    {
      ghost var before := Contents();
      if x !in values {
        DecodeAllUpdate(container.values, container.values, values, x, ids);
        values := values[x := ids];
        more := true;
        assert DefsOf(before, x) + Decode(container.values, ids) == Decode(container.values, ids);
        assert x in Contents() && x !in before;
      } else {
        var merged;
        merged, more := MergeInner(values[x], ids);
        container.IsInjective();
        MoreMeansNew(container.values, values[x], ids, merged, more);
        DecodeAllUpdate(container.values, container.values, values, x, merged);
        assert before[x] == Decode(container.values, values[x]);
        values := values[x := merged];
        assert Contents() == before ==> Contents()[x] == before[x];
      }
    }

    /** Joins all variables of another state into this one. */
    method JoinAll(otherValues: map<string, seq<nat>>, first: bool) returns (changed: bool)
      requires Valid() && AllKnown(container.values, otherValues)
      modifies this`values
      ensures Valid()
      ensures JoinSoFar(
                old(Contents()), DecodeAll(container.values, otherValues), Contents(), {}, first, changed)
    {
      changed := first;
      ghost var start, theirs := Contents(), DecodeAll(container.values, otherValues);
      var todo := otherValues.Keys;
      JoinStarts(start, theirs, first);
      while todo != {}
        invariant Valid() && todo <= otherValues.Keys
        invariant JoinSoFar(start, theirs, Contents(), todo, first, changed)
        decreases |todo|
      {
        var x :| x in todo;
        ghost var before := Contents();
        var more := JoinEntry(x, otherValues[x]);
        JoinStep(start, theirs, before, todo, first, changed, x, more);
        changed := changed || more;
        todo := todo - {x};
      }
    }

    /** Joins another state over the same container into this one. */
    method Join(other: RdRangeDomain) returns (changed: bool)
      requires Valid() && other.Valid() && other.container == container
      modifies this
      ensures Valid()
      ensures (State(), changed) == Merge(old(State()), old(other.State()))
    {
      changed := JoinAll(other.values, hasValues.TvFalse?);
      hasValues := TvUnknown;
      JoinDone(old(State()), old(other.State()), Contents(), changed);
    }
  }

  lemma JoinDone(start: RdState, theirs: RdState, now: Values, changed: bool)
    requires JoinSoFar(start.values, theirs.values, now, {}, start.hasValues.TvFalse?, changed)
    ensures (RdState(TvUnknown, now), changed) == Merge(start, theirs)
  {
    assert theirs.values - {} == theirs.values;
  }

  /** All variables of `theirs` but those still to do are joined into `start`. */
  ghost predicate JoinSoFar(
    start: Values, theirs: Values, now: Values, todo: set<string>, first: bool, changed: bool)
  {
    now == Union(start, theirs - todo) && (changed <==> first || now != start)
  }

  lemma JoinStarts(start: Values, theirs: Values, first: bool)
    ensures JoinSoFar(start, theirs, start, theirs.Keys, first, first)
  {
    UnionEmpty(start);
    assert theirs - theirs.Keys == map[];
  }

  lemma JoinStep(
    start: Values, theirs: Values, before: Values, todo: set<string>, first: bool, changed: bool, x: string, more: bool)
    requires JoinSoFar(start, theirs, before, todo, first, changed) && x in todo && todo <= theirs.Keys
    requires more <==> before[x := DefsOf(before, x) + theirs[x]] != before
    ensures JoinSoFar(
              start, theirs, before[x := DefsOf(before, x) + theirs[x]], todo - {x}, first, changed || more)
  {
    UnionStep(start, theirs, todo, x);
    if before != start {
      NeverShrinks(start, theirs, todo, todo - {x});
    }
  }

  lemma UnionEmpty(a: Values)
    ensures Union(a, map[]) == a
  {
    assert forall x :: x in a ==> DefsOf(a, x) + {} == a[x];
  }

  /** One more variable of `b` joined in. */
  lemma UnionStep(a: Values, b: Values, todo: set<string>, x: string)
    requires x in todo && todo <= b.Keys
    ensures Union(a, b - (todo - {x})) ==
      Union(a, b - todo)[x := DefsOf(a, x) + b[x]]
    ensures DefsOf(Union(a, b - todo), x) == DefsOf(a, x)
  {
    var l, r := Union(a, b - (todo - {x})), Union(a, b - todo)[x := DefsOf(a, x) + b[x]];
    assert l.Keys == r.Keys;
    forall y | y in l
      ensures l[y] == r[y]
    {
    }
  }

  /** Joining in more keeps a difference from the start. */
  lemma NeverShrinks(a: Values, b: Values, todo: set<string>, todo': set<string>)
    requires todo' <= todo && Union(a, b - todo) != a
    ensures Union(a, b - todo') != a
  {
    if Union(a, b - todo').Keys == a.Keys {
      var x :| x in a && Union(a, b - todo)[x] != a[x];
      assert x in b - todo && x in b - todo';
    }
  }

  /** As numbers are injective, new numbers mean new definitions. */
  lemma MoreMeansNew(vals: seq<Definition>, dest: seq<nat>, other: seq<nat>, merged: seq<nat>, more: bool)
    requires Injective(vals) && Known(vals, dest) && Known(vals, other) && Sorted(dest) && Sorted(merged)
    requires forall i :: i in merged <==> i in dest || i in other
    requires more <==> !(forall i :: i in other ==> i in dest)
    ensures Known(vals, merged) && Decode(vals, merged) == Decode(vals, dest) + Decode(vals, other)
    ensures more <==> Decode(vals, merged) != Decode(vals, dest)
    ensures !more ==> merged == dest
  {
    DecodeElements(vals, dest, other, merged);
    if more {
      var i :| i in other && i !in dest;
      var k :| 0 <= k < |other| && other[k] == i;
      assert vals[other[k]] in Decode(vals, merged);
      assert vals[i] !in Decode(vals, dest);
    } else {
      assert Elements(merged) == Elements(dest);
      SameElements(merged, dest);
    }
  }

  // --- what instructions do to written bits ----------------------------------------------------------

  ghost predicate SomeObject(ctx: Context, objects: seq<WrittenObject>, x: string, b: nat) {
    exists i :: 0 <= i < |objects| && objects[i].symbol == x && x in ctx.symbols && SomeRange(objects[i].ranges, b)
  }

  ghost predicate ThreadLocal(ctx: Context, x: string) {
    x !in ctx.shared && x !in ctx.dirty
  }

  /** The instruction may write the bit. */
  ghost predicate MayWrite(ctx: Context, l: nat, x: string, b: nat) {
    l < |ctx.effects| && ctx.effects[l].Writes? && SomeObject(ctx, ctx.effects[l].objects, x, b)
  }

  /** Past the instruction, the analysis takes earlier writes of the bit for undone. */
  ghost predicate TakesAway(ctx: Context, l: nat, x: string, b: nat) {
    l < |ctx.effects| &&
    match ctx.effects[l]
    case Writes(objects) =>
      && |objects| == 1 && objects[0].symbol == x && x in ctx.symbols
      && (l !in ctx.threaded || ThreadLocal(ctx, x)) && SomeFiniteRange(objects[0].ranges, b)
    case Dead(y) => x == y
    case ThreadStart => ThreadLocal(ctx, x)
    case NoEffect => false
  }

  /** Which bits an assignment takes away, and which it adds: exact when at most one object may be killed. */
  lemma AssignObjectIsExact(
    ctx: Context, values: Values, l: nat, o: WrittenObject, mustAlias: bool, x: string, at: nat, b: nat)
    ensures Covers(AssignObject(ctx, values, l, o, mustAlias), x, at, b) <==>
      || (Covers(values, x, at, b) && !(mustAlias && o.symbol in ctx.symbols && !OtherThreadsMayWrite(ctx, l, o.symbol)
            && x == o.symbol && SomeFiniteRange(o.ranges, b)))
      || (o.symbol in ctx.symbols && x == o.symbol && at == l && SomeRange(o.ranges, b))
  {
    if o.symbol in ctx.symbols {
      var kills := mustAlias && !OtherThreadsMayWrite(ctx, l, o.symbol);
      var killed := if kills then KillAll(values, o.symbol, o.ranges) else values;
      KillAllIsExact(values, o.symbol, o.ranges, x, at, b);
      GenAllIsExact(killed, l, o.symbol, o.ranges, x, at, b);
    }
  }

  /** With several objects in question nothing is killed. */
  lemma {:induction false} MayWriteIsExact(
    ctx: Context, values: Values, l: nat, objects: seq<WrittenObject>, x: string, at: nat, b: nat)
    ensures Covers(AssignAll(ctx, values, l, objects, false), x, at, b) <==>
      Covers(values, x, at, b) || (at == l && SomeObject(ctx, objects, x, b))
  {
    if objects != [] {
      var m := |objects| - 1;
      MayWriteIsExact(ctx, values, l, objects[..m], x, at, b);
      AssignObjectIsExact(ctx, AssignAll(ctx, values, l, objects[..m], false), l, objects[m], false, x, at, b);
      assert forall i :: 0 <= i < m ==> objects[..m][i] == objects[i];
    }
  }

  /** One instruction leaves of what is covered what it does not take away, and adds what it may write. */
  lemma TransformIsExact(ctx: Context, from: nat, values: Values, x: string, at: nat, b: nat)
    requires from < |ctx.effects|
    ensures Covers(TransformValues(ctx, from, values), x, at, b) <==>
      || (Covers(values, x, at, b) && !TakesAway(ctx, from, x, b))
      || (at == from && MayWrite(ctx, from, x, b))
  {
    match ctx.effects[from]
    case Writes(objects) =>
      if |objects| == 1 {
        assert objects[..0] == [] && AssignAll(ctx, values, from, objects[..0], true) == values;
        AssignObjectIsExact(ctx, values, from, objects[0], true, x, at, b);
      } else {
        MayWriteIsExact(ctx, values, from, objects, x, at, b);
      }
    case Dead(y) =>
      SameDefsSameBits(values, values - {y}, x, at, b);
    case ThreadStart =>
      SameDefsSameBits(values, AfterThreadStart(ctx, values), x, at, b);
    case NoEffect =>
  }

  lemma SameDefsSameBits(values: Values, values': Values, x: string, at: nat, b: nat)
    requires DefsOf(values', x) == DefsOf(values, x) || DefsOf(values', x) == {}
    ensures Covers(values', x, at, b) <==> Covers(values, x, at, b) && DefsOf(values', x) == DefsOf(values, x)
  {
  }

  lemma MergeCovers(s: RdState, t: RdState, x: string, at: nat, b: nat)
    ensures Covers(Merge(s, t).0.values, x, at, b) <==> Covers(s.values, x, at, b) || Covers(t.values, x, at, b)
  {
    var joined := Merge(s, t).0.values;
    assert DefsOf(joined, x) == DefsOf(s.values, x) + DefsOf(t.values, x);
    if Covers(s.values, x, at, b) || Covers(t.values, x, at, b) {
      var d :| (d in DefsOf(s.values, x) || d in DefsOf(t.values, x)) && d.definitionAt == at && CoversBit(d, b);
      assert d in DefsOf(joined, x);
    }
  }

  // --- the paths along which a written bit is carried ---------------------------------------------------

  /** From the instruction that may write the bit to `l`, with nothing in between that takes it away. */
  ghost predicate CarryingPath(ctx: Context, p: Program, at: nat, l: nat, x: string, b: nat, path: seq<nat>)
    requires WellFormed(p)
  {
    && |path| > 1 && PathBetween(FlowGraph(p), at, l, path)
    && MayWrite(ctx, at, x, b) && forall i :: 0 < i < |path| - 1 ==> !TakesAway(ctx, path[i], x, b)
  }

  ghost predicate Carried(ctx: Context, p: Program, at: nat, l: nat, x: string, b: nat)
    requires WellFormed(p)
  {
    CanReach(p, at) && exists path: seq<nat> :: CarryingPath(ctx, p, at, l, x, b, path)
  }

  lemma CarriedOn(ctx: Context, p: Program, at: nat, from: nat, to: nat, x: string, b: nat)
    requires WellFormed(p) && FlowGraph(p).Edge(from, to)
    requires Carried(ctx, p, at, from, x, b) && !TakesAway(ctx, from, x, b)
    ensures Carried(ctx, p, at, to, x, b)
  {
    var path: seq<nat> :| CarryingPath(ctx, p, at, from, x, b, path);
    PathExtend(FlowGraph(p), path, to);
    assert CarryingPath(ctx, p, at, to, x, b, path + [to]);
  }

  lemma CarriedFirst(ctx: Context, p: Program, from: nat, to: nat, x: string, b: nat)
    requires WellFormed(p) && FlowGraph(p).Edge(from, to) && CanReach(p, from) && MayWrite(ctx, from, x, b)
    ensures Carried(ctx, p, from, to, x, b)
  {
    assert CarryingPath(ctx, p, from, to, x, b, [from, to]);
  }

  /** A bit, and the instruction that wrote it. */
  datatype WrittenBit = WrittenBit(symbol: string, at: nat, bit: nat)

  ghost predicate HasBit(s: RdState, c: Option<WrittenBit>) {
    !s.hasValues.TvFalse? && (c.Some? ==> Covers(s.values, c.value.symbol, c.value.at, c.value.bit))
  }

  /** Follows at most one written bit: picks it up where it may be written, and drops it where it is taken away. */
  ghost predicate Follows(ctx: Context, from: nat, c: Option<WrittenBit>, c': Option<WrittenBit>) {
    && from < |ctx.effects|
    && (c'.Some? ==>
          || (c'.value.at == from && MayWrite(ctx, from, c'.value.symbol, c'.value.bit))
          || (c == c' && !TakesAway(ctx, from, c'.value.symbol, c'.value.bit)))
  }

  lemma FollowsIsSound(ctx: Context, from: nat, s: RdState, c: Option<WrittenBit>, c': Option<WrittenBit>)
    requires HasBit(s, c) && Follows(ctx, from, c, c')
    ensures HasBit(s.(values := TransformValues(ctx, from, s.values)), c')
  {
    if c'.Some? {
      TransformIsExact(ctx, from, s.values, c'.value.symbol, c'.value.at, c'.value.bit);
    }
  }

  lemma MergeHasBit(s: RdState, t: RdState, c: Option<WrittenBit>)
    ensures HasBit(s, c) || HasBit(t, c) ==> HasBit(Merge(s, t).0, c)
    ensures !Merge(s, t).1 && HasBit(Merge(s, t).0, c) ==> HasBit(s, c)
  {
    if c.Some? {
      MergeCovers(s, t, c.value.symbol, c.value.at, c.value.bit);
    }
  }

  ghost predicate AllCarried(ctx: Context, p: Program, l: nat, values: Values)
    requires WellFormed(p)
  {
    forall x, at, b :: Covers(values, x, at, b) ==> Carried(ctx, p, at, l, x, b)
  }

  lemma TransformIsCarried(ctx: Context, p: Program, from: nat, to: nat, values: Values)
    requires WellFormed(p) && Matches(ctx, p) && FlowGraph(p).Edge(from, to) && CanReach(p, from)
    requires AllCarried(ctx, p, from, values)
    ensures AllCarried(ctx, p, to, TransformValues(ctx, from, values))
  {
    forall x, at, b | Covers(TransformValues(ctx, from, values), x, at, b)
      ensures Carried(ctx, p, at, to, x, b)
    {
      TransformIsExact(ctx, from, values, x, at, b);
      if at == from && MayWrite(ctx, from, x, b) {
        CarriedFirst(ctx, p, from, to, x, b);
      } else {
        CarriedOn(ctx, p, at, from, to, x, b);
      }
    }
  }

  // --- what runs write -----------------------------------------------------------------------------

  /**
   What a run has done to variables: the bits one instruction wrote, variables that came new, or a
   thread started by the running one.
   */
  datatype Event =
    | Wrote(at: nat, bits: set<(string, nat)>)
    | Renewed(symbols: iset<string>)
    | Started

  /** The instruction that last wrote the bit, if there is one. */
  ghost function LastWriter(log: seq<Event>, x: string, b: nat): Option<nat> {
    if log == [] then None
    else
      match log[|log| - 1]
      case Wrote(at, bits) => if (x, b) in bits then Some(at) else LastWriter(log[..|log| - 1], x, b)
      case Renewed(symbols) => if x in symbols then None else LastWriter(log[..|log| - 1], x, b)
      case Started => LastWriter(log[..|log| - 1], x, b)
  }

  /** A thread was started after the bit was last written. */
  ghost predicate StartedSince(log: seq<Event>, x: string, b: nat) {
    log != [] &&
    match log[|log| - 1]
    case Wrote(at, bits) => (x, b) !in bits && StartedSince(log[..|log| - 1], x, b)
    case Renewed(_) => StartedSince(log[..|log| - 1], x, b)
    case Started => true
  }

  /**
   The bits lie in the listed ranges, and a single listed object is the one that is written,
   throughout its finite ranges.
   */
  ghost predicate WriteOf(ctx: Context, objects: seq<WrittenObject>, bits: set<(string, nat)>) {
    && (forall x, b :: (x, b) in bits ==> SomeObject(ctx, objects, x, b))
    && (|objects| == 1 && objects[0].symbol in ctx.symbols ==>
          forall b: nat :: SomeFiniteRange(objects[0].ranges, b) ==> (objects[0].symbol, b) in bits)
  }

  ghost function ThreadLocals(ctx: Context): iset<string> {
    iset x: string | ThreadLocal(ctx, x)
  }

  /** Only the started thread, which goes on at the target, has local variables of its own. */
  ghost predicate Happens(ctx: Context, p: Program, from: nat, to: nat, log: seq<Event>, log': seq<Event>) {
    from < |ctx.effects| &&
    match ctx.effects[from]
    case NoEffect => log' == log
    case Dead(x) => log' == log + [Renewed(iset{x})]
    case ThreadStart =>
      || (log' == log + [Started] && to == from + 1)
      || (log' == log + [Renewed(ThreadLocals(ctx))] && from < |p| && p[from].StartThread? && to == p[from].target)
    case Writes(objects) =>
      |log'| == |log| + 1 && log'[..|log|] == log && log'[|log|].Wrote? && log'[|log|].at == from
      && WriteOf(ctx, objects, log'[|log|].bits)
  }

  /** A run of the program from its entry, with what it has done to variables so far. */
  ghost predicate WritingRun(ctx: Context, p: Program, run: seq<(nat, seq<Event>)>) {
    && run != [] && run[0] == (0, [])
    && (forall i :: 0 <= i < |run| ==> run[i].0 < |p|)
    && forall i :: 0 < i < |run| ==>
      run[i].0 in Successors(p, run[i - 1].0) && Happens(ctx, p, run[i - 1].0, run[i].0, run[i - 1].1, run[i].1)
  }

  /** The last writer, unless the variable is local and a thread was started since. */
  ghost predicate LastWriterKept(ctx: Context, log: seq<Event>, x: string, b: nat, at: nat) {
    LastWriter(log, x, b) == Some(at) && (ThreadLocal(ctx, x) ==> !StartedSince(log, x, b))
  }

  /** What a step leaves of the last writer was there before, or is this instruction. */
  lemma LastWriterStep(ctx: Context, p: Program, from: nat, to: nat, log: seq<Event>, log': seq<Event>,
                       x: string, b: nat, at: nat)
    requires Happens(ctx, p, from, to, log, log') && LastWriterKept(ctx, log', x, b, at)
    ensures
      || (at == from && MayWrite(ctx, from, x, b))
      || (LastWriterKept(ctx, log, x, b, at) && !TakesAway(ctx, from, x, b))
  {
    if log' != log {
      assert log'[..|log'| - 1] == log;
    }
  }

  /** The last writer of a bit is carried to where the run is, unless it is local and a thread was started since. */
  lemma {:induction false} LastWriterIsCarried(
    ctx: Context, p: Program, run: seq<(nat, seq<Event>)>, i: nat, x: string, b: nat, at: nat)
    requires WellFormed(p) && WritingRun(ctx, p, run) && i < |run|
    requires LastWriterKept(ctx, run[i].1, x, b, at)
    ensures Carried(ctx, p, at, run[i].0, x, b)
  {
    if i > 0 {
      var from, to := run[i - 1].0, run[i].0;
      LastWriterStep(ctx, p, from, to, run[i - 1].1, run[i].1, x, b, at);
      if at == from && MayWrite(ctx, from, x, b) {
        RunCanReach(ctx, p, run, i - 1);
        CarriedFirst(ctx, p, from, to, x, b);
      } else {
        LastWriterIsCarried(ctx, p, run, i - 1, x, b, at);
        CarriedOn(ctx, p, at, from, to, x, b);
      }
    }
  }

  lemma {:induction false} RunCanReach(ctx: Context, p: Program, run: seq<(nat, seq<Event>)>, i: nat)
    requires WellFormed(p) && WritingRun(ctx, p, run) && i < |run|
    ensures CanReach(p, run[i].0)
  {
    if i == 0 {
      assert PathBetween(FlowGraph(p), 0, 0, [0]);
    } else {
      RunCanReach(ctx, p, run, i - 1);
      CanReachNext(p, run[i - 1].0, run[i].0);
    }
  }

  // --- nothing is invented -----------------------------------------------------------------------

  /** The facts match the program, and ranges are as the analysis demands. */
  ghost predicate Matches(ctx: Context, p: Program) {
    && |ctx.effects| == |p|
    && forall l :: 0 <= l < |p| ==> (ctx.effects[l].ThreadStart? <==> p[l].StartThread?)
  }

  /** The instruction may write the variable. */
  ghost predicate Defines(ctx: Context, l: nat, x: string) {
    && l < |ctx.effects| && ctx.effects[l].Writes? && x in ctx.symbols
    && exists i :: 0 <= i < |ctx.effects[l].objects| && ctx.effects[l].objects[i].symbol == x
  }

  /** The bit positions at which ranges begin or end. */
  ghost function Marks(ctx: Context): set<nat> {
    set l, i, j, n: nat | 0 <= l < |ctx.effects| && ctx.effects[l].Writes? && 0 <= i < |ctx.effects[l].objects|
      && 0 <= j < |ctx.effects[l].objects[i].ranges| && n in MarksOf(ctx.effects[l].objects[i].ranges[j]) :: n
  }

  function MarksOf(r: BitRange): set<nat> {
    {r.begin} + if r.end.Bit? then {r.end.at} else {}
  }

  ghost predicate Marked(marks: set<nat>, d: Definition) {
    d.bitBegin in marks && (d.bitEnd.Bit? ==> d.bitEnd.at in marks)
  }

  /** A stored definition is one its instruction makes, and control leads from there to here. */
  ghost predicate Genuine(ctx: Context, p: Program, l: nat, x: string, d: Definition)
    requires WellFormed(p)
  {
    && d.identifier == x && Defines(ctx, d.definitionAt, x) && Marked(Marks(ctx), d)
    && CanReach(p, d.definitionAt) && LeadsTo(p, d.definitionAt, l)
  }

  ghost predicate AllGood(values: Values, good: (string, Definition) -> bool) {
    forall x, d :: x in values && d in values[x] ==> good(x, d)
  }

  ghost predicate AllGenuine(ctx: Context, p: Program, l: nat, values: Values)
    requires WellFormed(p)
  {
    values.Keys <= ctx.symbols && AllGood(values, (x, d) => Genuine(ctx, p, l, x, d))
  }

  ghost predicate AllMarked(ctx: Context, ranges: seq<BitRange>) {
    forall i :: 0 <= i < |ranges| ==> MarksOf(ranges[i]) <= Marks(ctx)
  }

  /** What all definitions and the pieces they can be cut into have, killing keeps. */
  lemma {:induction false} KillsStayGood(
    values: Values, x: string, ranges: seq<BitRange>, good: (string, Definition) -> bool)
    requires AllGood(values, good)
    requires forall i, d, q :: 0 <= i < |ranges| && ranges[i].end.Bit? ==>
      good(x, d) && q in Pieces(d, ranges[i].begin, ranges[i].end.at) ==> good(x, q)
    ensures AllGood(KillAll(values, x, ranges), good) && KillAll(values, x, ranges).Keys == values.Keys
  {
    if ranges != [] {
      var m := |ranges| - 1;
      assert forall i :: 0 <= i < m ==> ranges[..m][i] == ranges[i];
      KillsStayGood(values, x, ranges[..m], good);
    }
  }

  lemma {:induction false} GensAreGood(
    values: Values, at: nat, x: string, ranges: seq<BitRange>, good: (string, Definition) -> bool)
    requires AllGood(values, good)
    requires forall i :: 0 <= i < |ranges| ==> good(x, Definition(x, at, ranges[i].begin, ranges[i].end))
    ensures AllGood(GenAll(values, at, x, ranges), good) && GenAll(values, at, x, ranges).Keys <= values.Keys + {x}
  {
    if ranges != [] {
      var m := |ranges| - 1;
      assert forall i :: 0 <= i < m ==> ranges[..m][i] == ranges[i];
      GensAreGood(values, at, x, ranges[..m], good);
    }
  }

  lemma MarksOfRange(ctx: Context, ranges: seq<BitRange>, i: nat)
    requires AllMarked(ctx, ranges) && i < |ranges|
    ensures ranges[i].begin in Marks(ctx) && (ranges[i].end.Bit? ==> ranges[i].end.at in Marks(ctx))
  {
    var marks := Marks(ctx);
    assert MarksOf(ranges[i]) <= marks;
    assert ranges[i].begin in MarksOf(ranges[i]);
    assert ranges[i].end.Bit? ==> ranges[i].end.at in MarksOf(ranges[i]);
  }

  lemma PiecesAreMarked(marks: set<nat>, d: Definition, rs: nat, re: nat)
    requires Marked(marks, d) && rs in marks && re in marks
    ensures forall q :: q in Pieces(d, rs, re) ==>
      Marked(marks, q) && q.identifier == d.identifier && q.definitionAt == d.definitionAt
  {
  }

  lemma ObjectIsGenuine(
    ctx: Context, p: Program, l: nat, values: Values, at: nat, o: WrittenObject, mustAlias: bool)
    requires WellFormed(p) && AllGenuine(ctx, p, l, values) && AllMarked(ctx, o.ranges)
    requires o.symbol in ctx.symbols ==> Defines(ctx, at, o.symbol)
    requires CanReach(p, at) && LeadsTo(p, at, l)
    ensures AllGenuine(ctx, p, l, AssignObject(ctx, values, at, o, mustAlias))
  {
    if o.symbol in ctx.symbols {
      var x := o.symbol;
      var good := (x, d) => Genuine(ctx, p, l, x, d);
      forall i, d, q | 0 <= i < |o.ranges| && o.ranges[i].end.Bit? && good(x, d) &&
        q in Pieces(d, o.ranges[i].begin, o.ranges[i].end.at)
        ensures good(x, q)
      {
        MarksOfRange(ctx, o.ranges, i);
        PiecesAreMarked(Marks(ctx), d, o.ranges[i].begin, o.ranges[i].end.at);
      }
      forall i | 0 <= i < |o.ranges|
        ensures good(x, Definition(x, at, o.ranges[i].begin, o.ranges[i].end))
      {
        MarksOfRange(ctx, o.ranges, i);
      }
      KillsStayGood(values, x, o.ranges, good);
      var kills := mustAlias && !OtherThreadsMayWrite(ctx, at, x);
      GensAreGood(if kills then KillAll(values, x, o.ranges) else values, at, x, o.ranges, good);
    }
  }

  lemma WrittenIsDefined(ctx: Context, at: nat, i: nat)
    requires at < |ctx.effects| && ctx.effects[at].Writes? && i < |ctx.effects[at].objects|
    ensures AllMarked(ctx, ctx.effects[at].objects[i].ranges)
    ensures ctx.effects[at].objects[i].symbol in ctx.symbols ==>
      Defines(ctx, at, ctx.effects[at].objects[i].symbol)
  {
  }

  lemma AssignNext(ctx: Context, values: Values, at: nat, objects: seq<WrittenObject>, k: nat, mustAlias: bool)
    requires k < |objects|
    ensures AssignAll(ctx, values, at, objects[..k + 1], mustAlias) ==
      AssignObject(ctx, AssignAll(ctx, values, at, objects[..k], mustAlias), at, objects[k], mustAlias)
  {
    assert objects[..k + 1][..k] == objects[..k];
  }

  lemma {:induction false} AssignIsGenuine(
    ctx: Context, p: Program, l: nat, values: Values, at: nat, k: nat, mustAlias: bool)
    requires WellFormed(p) && AllGenuine(ctx, p, l, values)
    requires at < |ctx.effects| && ctx.effects[at].Writes? && k <= |ctx.effects[at].objects|
    requires CanReach(p, at) && LeadsTo(p, at, l)
    ensures AllGenuine(ctx, p, l, AssignAll(ctx, values, at, ctx.effects[at].objects[..k], mustAlias))
  {
    if k > 0 {
      var objects := ctx.effects[at].objects;
      AssignIsGenuine(ctx, p, l, values, at, k - 1, mustAlias);
      WrittenIsDefined(ctx, at, k - 1);
      AssignNext(ctx, values, at, objects, k - 1, mustAlias);
      var before := AssignAll(ctx, values, at, objects[..k - 1], mustAlias);
      ObjectIsGenuine(ctx, p, l, before, at, objects[k - 1], mustAlias);
    }
  }

  lemma TransformIsGenuine(ctx: Context, p: Program, from: nat, to: nat, values: Values)
    requires WellFormed(p) && Matches(ctx, p) && FlowGraph(p).Edge(from, to) && CanReach(p, from)
    requires AllGenuine(ctx, p, from, values)
    ensures AllGenuine(ctx, p, to, TransformValues(ctx, from, values))
  {
    forall x, d | x in values && d in values[x]
      ensures Genuine(ctx, p, to, x, d)
    {
      assert Genuine(ctx, p, from, x, d);
      LeadsOn(p, d.definitionAt, from, to);
    }
    LeadsOn(p, from, from, to);
    if ctx.effects[from].Writes? {
      var objects := ctx.effects[from].objects;
      AssignIsGenuine(ctx, p, to, values, from, |objects|, |objects| == 1);
      assert objects[..|objects|] == objects;
    }
  }

  // --- the analysis --------------------------------------------------------------------------------

  function Domain(ctx: Context): DomainKind<RdState> {
    DomainKind(
      RdState(TvFalse, map[]),
      (s: RdState) => s.hasValues.TvFalse?,
      RdState(TvTrue, map[]),
      (from: nat, to: nat, s: RdState) => s.(values := TransformValues(ctx, from, s.values)),
      Merge)
  }

  ghost function Meaning(ctx: Context, p: Program): Semantics<RdState, Option<WrittenBit>>
    requires WellFormed(p)
  {
    Semantics(
      (s: RdState, c: Option<WrittenBit>) => HasBit(s, c),
      (c: Option<WrittenBit>) => c == None,
      (from: nat, c: Option<WrittenBit>, to: nat, c': Option<WrittenBit>) => Follows(ctx, from, c, c'),
      (l: nat, s: RdState) => AllGenuine(ctx, p, l, s.values) && AllCarried(ctx, p, l, s.values))
  }

  lemma IsSound(ctx: Context, p: Program)
    requires WellFormed(p) && Matches(ctx, p)
    ensures SoundDomain(p, Domain(ctx), Meaning(ctx, p)) && InductiveProperty(p, Domain(ctx), Meaning(ctx, p))
  {
    forall from, s, c, c' | HasBit(s, c) && Follows(ctx, from, c, c')
      ensures HasBit(s.(values := TransformValues(ctx, from, s.values)), c')
    {
      FollowsIsSound(ctx, from, s, c, c');
    }
    forall s, t, c
      ensures HasBit(s, c) || HasBit(t, c) ==> HasBit(Merge(s, t).0, c)
      ensures !Merge(s, t).1 && HasBit(Merge(s, t).0, c) ==> HasBit(s, c)
    {
      MergeHasBit(s, t, c);
    }
    IsKept(ctx, p);
  }

  lemma IsKept(ctx: Context, p: Program)
    requires WellFormed(p) && Matches(ctx, p)
    ensures InductiveProperty(p, Domain(ctx), Meaning(ctx, p))
  {
    forall l: nat, s: RdState, t: RdState | AllCarried(ctx, p, l, s.values) && AllCarried(ctx, p, l, t.values)
      ensures AllCarried(ctx, p, l, Merge(s, t).0.values)
    {
      forall x, at, b | Covers(Merge(s, t).0.values, x, at, b)
        ensures Carried(ctx, p, at, l, x, b)
      {
        MergeCovers(s, t, x, at, b);
      }
    }
    forall from: nat, to: nat, s: RdState | from < |p| && to in Successors(p, from) && CanReach(p, from)
      && AllGenuine(ctx, p, from, s.values) && AllCarried(ctx, p, from, s.values)
      ensures AllGenuine(ctx, p, to, TransformValues(ctx, from, s.values))
      ensures AllCarried(ctx, p, to, TransformValues(ctx, from, s.values))
    {
      TransformIsGenuine(ctx, p, from, to, s.values);
      TransformIsCarried(ctx, p, from, to, s.values);
    }
  }

  // --- termination ---------------------------------------------------------------------------------

  function AllDefs(values: Values): set<Definition> {
    set x, d | x in values && d in values[x] :: d
  }

  function Rank(s: RdState): nat {
    (if s.hasValues.TvFalse? then 0 else 1) + |s.values.Keys| + |AllDefs(s.values)|
  }

  function Ends(marks: set<nat>): set<End> {
    {Unknown} + set n | n in marks :: Bit(n)
  }

  function UniverseOf(symbols: set<string>, n: nat, marks: set<nat>): set<Definition> {
    var ends := Ends(marks);
    set x, at: nat, b, e | x in symbols && at < n && b in marks && e in ends :: Definition(x, at, b, e)
  }

  lemma UniverseHas(symbols: set<string>, n: nat, marks: set<nat>, d: Definition)
    requires d.identifier in symbols && d.definitionAt < n && Marked(marks, d)
    ensures d in UniverseOf(symbols, n, marks)
  {
    assert d.bitEnd.Bit? ==> Bit(d.bitEnd.at) == d.bitEnd;
    assert d == Definition(d.identifier, d.definitionAt, d.bitBegin, d.bitEnd);
  }

  /** Every definition that can ever be stored. */
  ghost function Universe(ctx: Context): set<Definition> {
    UniverseOf(ctx.symbols, |ctx.effects|, Marks(ctx))
  }

  lemma GenuineInUniverse(ctx: Context, p: Program, l: nat, x: string, d: Definition)
    requires WellFormed(p) && Genuine(ctx, p, l, x, d)
    ensures d in Universe(ctx)
  {
    UniverseHas(ctx.symbols, |ctx.effects|, Marks(ctx), d);
  }

  lemma GenuineIsBounded(ctx: Context, p: Program, l: nat, s: RdState)
    requires WellFormed(p) && AllGenuine(ctx, p, l, s.values)
    ensures Rank(s) <= 1 + |ctx.symbols| + |Universe(ctx)|
  {
    var universe := Universe(ctx);
    assert AllDefs(s.values) <= universe by {
      forall d | d in AllDefs(s.values)
        ensures d in universe
      {
        var x :| x in s.values && d in s.values[x];
        GenuineInUniverse(ctx, p, l, x, d);
      }
    }
    SizeGrows(s.values.Keys, ctx.symbols);
    SizeGrows(AllDefs(s.values), universe);
  }

  lemma SizeGrows<T>(a: set<T>, b: set<T>)
    requires a <= b
    ensures |a| <= |b| && (|a| == |b| ==> a == b)
  {
    assert b == a + (b - a);
  }

  lemma AllDefsOfUnion(a: Values, b: Values)
    ensures AllDefs(a) <= AllDefs(Union(a, b))
  {
    forall d | d in AllDefs(a)
      ensures d in AllDefs(Union(a, b))
    {
      var x :| x in a && d in a[x];
      assert d in Union(a, b)[x];
    }
  }

  predicate Named(values: Values, x: string, d: Definition) {
    d in DefsOf(values, x) ==> d.identifier == x
  }

  /** As a definition is only kept with its variable, one that is new there is new altogether. */
  lemma NewInUnion(a: Values, b: Values)
    requires forall x, d :: Named(a, x, d) && Named(b, x, d)
    requires Union(a, b) != a && Union(a, b).Keys == a.Keys
    ensures AllDefs(Union(a, b)) != AllDefs(a)
  {
    var joined := Union(a, b);
    var x :| x in a && joined[x] != a[x];
    assert a[x] <= joined[x];
    var d :| d in joined[x] && d !in a[x];
    assert x in b && d in b[x];
    assert Named(b, x, d);
    assert forall y :: y in a && d in a[y] ==> Named(a, y, d);
    assert d in AllDefs(joined) && d !in AllDefs(a);
  }

  lemma GenuineNamed(ctx: Context, p: Program, l: nat, values: Values)
    requires WellFormed(p) && AllGenuine(ctx, p, l, values)
    ensures forall x, d :: Named(values, x, d)
  {
    forall x, d
      ensures Named(values, x, d)
    {
      if d in DefsOf(values, x) {
        assert Genuine(ctx, p, l, x, d);
      }
    }
  }

  lemma MergeGrows(s: RdState, t: RdState)
    requires forall x, d :: Named(s.values, x, d) && Named(t.values, x, d)
    ensures Rank(Merge(s, t).0) >= Rank(s)
    ensures Merge(s, t).1 ==> Rank(Merge(s, t).0) > Rank(s)
  {
    var joined := Union(s.values, t.values);
    AllDefsOfUnion(s.values, t.values);
    SizeGrows(s.values.Keys, joined.Keys);
    SizeGrows(AllDefs(s.values), AllDefs(joined));
    if joined != s.values && joined.Keys == s.values.Keys {
      NewInUnion(s.values, t.values);
    }
  }

  ghost function Bound(ctx: Context, p: Program): Finiteness<Ahistorical, RdState> {
    Finiteness(AhistoricalHistory.Universe(|p|), Rank, 1 + |ctx.symbols| + |Universe(ctx)|)
  }

  lemma IsFiniteAnalysis(ctx: Context, p: Program)
    requires WellFormed(p)
    ensures FiniteAnalysis(Analysis(p, History(), ByLocation(), Domain(ctx), Meaning(ctx, p)), Bound(ctx, p))
  {
    var dom, fin := Domain(ctx), Bound(ctx, p);
    AhistoricalHistory.IsFinite(|p|, Rank, fin.height);
    forall l: nat, s: RdState | AllGenuine(ctx, p, l, s.values)
      ensures fin.rank(s) <= fin.height
    {
      GenuineIsBounded(ctx, p, l, s);
    }
    forall l: nat, s: RdState, t: RdState | AllGenuine(ctx, p, l, s.values) && AllGenuine(ctx, p, l, t.values)
      ensures RankGrows(dom, fin.rank, s, t)
    {
      GenuineNamed(ctx, p, l, s.values);
      GenuineNamed(ctx, p, l, t.values);
      MergeGrows(s, t);
    }
  }

  lemma IsLawfulAnalysis(ctx: Context, p: Program)
    requires WellFormed(p) && Matches(ctx, p)
    ensures
      var an := Analysis(p, History(), ByLocation(), Domain(ctx), Meaning(ctx, p));
      Lawful(an) && FiniteAnalysis(an, Bound(ctx, p)) && History().epoch(0) in Bound(ctx, p).universe
  {
    AhistoricalHistory.IsLawful();
    AhistoricalHistory.IsFinite(|p|, Rank, Bound(ctx, p).height);
    IsSound(ctx, p);
    IsFiniteAnalysis(ctx, p);
  }

  function StateAt(states: map<nat, RdState>, l: nat): Values {
    if l in states then states[l].values else map[]
  }

  /** The run that picks up the bit at the start of a carrying path. */
  ghost function FollowingRun(lead: seq<nat>, path: seq<nat>, c: WrittenBit): (run: seq<(nat, Option<WrittenBit>)>)
    requires lead != [] && path != []
    ensures |run| == |Join(lead, path)|
  {
    var whole := Join(lead, path);
    seq(|whole|, i requires 0 <= i < |whole| => (whole[i], if i < |lead| then None else Some(c)))
  }

  lemma FollowingRunIsRun(
    ctx: Context, p: Program, at: nat, l: nat, x: string, b: nat, lead: seq<nat>, path: seq<nat>)
    requires WellFormed(p) && Matches(ctx, p)
    requires PathBetween(FlowGraph(p), 0, at, lead) && CarryingPath(ctx, p, at, l, x, b, path)
    ensures
      var run := FollowingRun(lead, path, WrittenBit(x, at, b));
      ConcreteRun(p, Meaning(ctx, p), run) && run[|run| - 1] == (l, Some(WrittenBit(x, at, b)))
  {
    var g, whole, run := FlowGraph(p), Join(lead, path), FollowingRun(lead, path, WrittenBit(x, at, b));
    PathJoin(g, lead, path);
    forall i | 0 <= i < |run|
      ensures run[i].0 < |p|
    {
      PathInRange(g, whole, whole[i]);
    }
    forall i | 0 < i < |run|
      ensures run[i].0 in Successors(p, run[i - 1].0) && Follows(ctx, run[i - 1].0, run[i - 1].1, run[i].1)
    {
      assert g.Edge(whole[i - 1], whole[i]);
      if i == |lead| {
        assert whole[i - 1] == at;
      } else if i > |lead| {
        assert whole[i - 1] == path[i - |lead|];
      }
    }
  }

  /** In the end, a state has exactly the bits that are carried to it. */
  lemma CoveredExactly(ctx: Context, p: Program, st: Store<Ahistorical, nat, RdState>, l: nat,
                       x: string, at: nat, b: nat)
    requires WellFormed(p) && Matches(ctx, p)
    requires EngineInvariant(Analysis(p, History(), ByLocation(), Domain(ctx), Meaning(ctx, p)), st, {}, {})
    ensures Covers(StateAt(st.states, l), x, at, b) <==> Carried(ctx, p, at, l, x, b)
  {
    var an := Analysis(p, History(), ByLocation(), Domain(ctx), Meaning(ctx, p));
    if Carried(ctx, p, at, l, x, b) {
      var lead: seq<nat> :| PathBetween(FlowGraph(p), 0, at, lead);
      var path: seq<nat> :| CarryingPath(ctx, p, at, l, x, b, path);
      FollowingRunIsRun(ctx, p, at, l, x, b, lead, path);
      var run := FollowingRun(lead, path, WrittenBit(x, at, b));
      CoveredByState(an, st, run, |run| - 1);
    }
    if Covers(StateAt(st.states, l), x, at, b) {
      StoredHasProperty(an, st, l);
    }
  }

  /**
   The states the abstract interpreter ends with: they have a bit of an instruction exactly if it is
   carried there. So the last writer of each bit, on every run, is among the definitions where the run
   is, with a range that has the bit, unless the variable is local and the thread has started another
   since; and every definition is one its instruction makes.
   */
  method Analyse(ctx: Context, p: Program) returns (states: map<nat, RdState>)
    requires WellFormed(p) && Matches(ctx, p)
    ensures forall l: nat, x, at, b :: Covers(StateAt(states, l), x, at, b) <==> Carried(ctx, p, at, l, x, b)
    ensures forall run: seq<(nat, seq<Event>)>, i, x, b, at ::
      WritingRun(ctx, p, run) && 0 <= i < |run| && LastWriterKept(ctx, run[i].1, x, b, at) ==>
      Covers(StateAt(states, run[i].0), x, at, b)
    ensures forall l: nat, x, d :: d in DefsOf(StateAt(states, l), x) ==> Genuine(ctx, p, l, x, d)
  {
    var ai := new Interpreter<Ahistorical, nat, RdState, Option<WrittenBit>>(
      p, History(), ByLocation(), Domain(ctx), Meaning(ctx, p));
    IsLawfulAnalysis(ctx, p);
    FiniteIsTerminating(ai.An(), Bound(ctx, p));
    ai.Run(FiniteTermination(ai.An(), Bound(ctx, p)));
    states := ai.stateMap;
    forall l: nat, x, at, b
      ensures Covers(StateAt(states, l), x, at, b) <==> Carried(ctx, p, at, l, x, b)
    {
      CoveredExactly(ctx, p, ai.Stored(), l, x, at, b);
    }
    forall run: seq<(nat, seq<Event>)>, i, x, b, at | WritingRun(ctx, p, run) && 0 <= i < |run|
      && LastWriterKept(ctx, run[i].1, x, b, at)
      ensures Covers(StateAt(states, run[i].0), x, at, b)
    {
      LastWriterIsCarried(ctx, p, run, i, x, b, at);
    }
    forall l: nat, x, d | d in DefsOf(StateAt(states, l), x)
      ensures Genuine(ctx, p, l, x, d)
    {
      StoredIsGenuine(ctx, p, ai.Stored(), l, x, d);
    }
  }

  lemma StoredIsGenuine(
    ctx: Context, p: Program, st: Store<Ahistorical, nat, RdState>, l: nat, x: string, d: Definition)
    requires WellFormed(p)
    requires EngineInvariant(Analysis(p, History(), ByLocation(), Domain(ctx), Meaning(ctx, p)), st, {}, {})
    requires d in DefsOf(StateAt(st.states, l), x)
    ensures Genuine(ctx, p, l, x, d)
  {
    StoredHasProperty(Analysis(p, History(), ByLocation(), Domain(ctx), Meaning(ctx, p)), st, l);
    assert AllGenuine(ctx, p, l, st.states[l].values);
  }

  // --- where the code falls short -----------------------------------------------------------------

  /** Writes a local variable, starts a thread and goes on. */
  function LocalThenThread(): (Program, Context) {
    ([Plain, StartThread(3), Plain, EndFunction],
     Context([Writes([LocalByte()]), ThreadStart, NoEffect, NoEffect], {"x"}, {}, {}, {3}))
  }

  function LocalByte(): WrittenObject {
    WrittenObject("x", [BitRange(0, Bit(8))])
  }

  function ByteOf(x: string): set<(string, nat)> {
    set b: nat | b < 8 :: (x, b)
  }

  lemma ByteIsWritten(ctx: Context)
    requires "x" in ctx.symbols
    ensures WriteOf(ctx, [LocalByte()], ByteOf("x"))
  {
    var objects := [LocalByte()];
    forall x, b | (x, b) in ByteOf("x")
      ensures SomeObject(ctx, objects, x, b)
    {
      assert objects[0].symbol == x && InRange(objects[0].ranges[0].begin, objects[0].ranges[0].end, b);
    }
    forall b: nat | SomeFiniteRange(objects[0].ranges, b)
      ensures ("x", b) in ByteOf("x")
    {
      var i :| 0 <= i < |objects[0].ranges| && InRange(objects[0].ranges[i].begin, objects[0].ranges[i].end, b);
      assert b < 8;
    }
  }

  lemma NothingPastThreadStart(p: Program, ctx: Context, x: string, b: nat)
    requires WellFormed(p) && |p| > 0 && Successors(p, 0) == [1] && TakesAway(ctx, 1, x, b)
    ensures !Carried(ctx, p, 0, 2, x, b)
  {
    forall path: seq<nat> | |path| > 1 && PathBetween(FlowGraph(p), 0, 2, path)
      ensures path[1] == 1 && |path| > 2
    {
      assert FlowGraph(p).Edge(path[0], path[1]);
    }
  }

  lemma KnowsTheWriter(log: seq<Event>, bits: set<(string, nat)>, x: string, b: nat, at: nat)
    requires (x, b) in bits && log == [Wrote(at, bits), Started]
    ensures LastWriter(log, x, b) == Some(at)
  {
    assert log[..1] == [Wrote(at, bits)];
  }

  lemma LocalThenThreadRuns(p: Program, ctx: Context, bits: set<(string, nat)>)
    requires (p, ctx) == LocalThenThread() && bits == ByteOf("x")
    ensures WellFormed(p) && Matches(ctx, p) && Successors(p, 0) == [1] && Successors(p, 1) == [3, 2]
    ensures Happens(ctx, p, 0, 1, [], [Wrote(0, bits)])
    ensures Happens(ctx, p, 1, 2, [Wrote(0, bits)], [Wrote(0, bits), Started])
  {
    ByteIsWritten(ctx);
    assert [Wrote(0, bits)][..0] == [];
  }

  /** The run knows the writer, but nothing carries it past the thread start, so that the analysis has not got it. */
  lemma ThreadStartForgetsLocals(p: Program, ctx: Context, run: seq<(nat, seq<Event>)>)
    requires (p, ctx) == LocalThenThread()
    requires run == [(0, []), (1, [Wrote(0, ByteOf("x"))]), (2, [Wrote(0, ByteOf("x")), Started])]
    ensures WellFormed(p) && Matches(ctx, p) && WritingRun(ctx, p, run)
    ensures LastWriter(run[2].1, "x", 0) == Some(0) && !Carried(ctx, p, 0, 2, "x", 0)
  {
    LocalThenThreadRuns(p, ctx, ByteOf("x"));
    assert ("x", 0) in ByteOf("x");
    KnowsTheWriter(run[2].1, ByteOf("x"), "x", 0, 0);
    NothingPastThreadStart(p, ctx, "x", 0);
  }
}
