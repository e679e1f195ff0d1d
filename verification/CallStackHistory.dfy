/**
 Histories that are call stacks: where one is and from which call sites one came, with a limit
 on how often a site may recur.
 */
module CallStackHistory {
  import opened Options
  import opened SortedSets
  import opened AbstractInterpreter
  import opened Words

  /** An immutable list of entries; a history is a stack that is not null. */
  datatype Stack = Null | Entry(location: nat, caller: Stack)

  datatype Kind = Call | End | Other

  // --- comparing -----------------------------------------------------------------------------

  /** Which pointers happen to be the same: only those to equal stacks, and null is null. */
  ghost predicate Sharing(same: (Stack, Stack) -> bool) {
    same(Null, Null) && forall a, b :: same(a, b) ==> a == b
  }

  predicate Less(a: Stack, b: Stack, same: (Stack, Stack) -> bool)
    requires a.Entry? && b.Entry?
  {
    if a.location < b.location then true
    else if a.location > b.location then false
    else if same(a.caller, b.caller) then false
    else if a.caller.Null? then true
    else if b.caller.Null? then false
    else Less(a.caller, b.caller, same)
  }

  predicate Equal(a: Stack, b: Stack, same: (Stack, Stack) -> bool)
    requires a.Entry? && b.Entry?
  {
    a.location == b.location &&
    if same(a.caller, b.caller) then true
    else if a.caller.Entry? && b.caller.Entry? then Equal(a.caller, b.caller, same)
    else false
  }

  lemma {:induction false} EqualityIsIdentity(a: Stack, b: Stack, same: (Stack, Stack) -> bool)
    requires Sharing(same) && a.Entry? && b.Entry?
    ensures Equal(a, b, same) <==> a == b
  {
    if a.caller.Entry? && b.caller.Entry? {
      EqualityIsIdentity(a.caller, b.caller, same);
    }
  }

  /** Exactly one of below, equal and above holds, whatever happens to be shared. */
  lemma {:induction false} OrderIsTotal(a: Stack, b: Stack, same: (Stack, Stack) -> bool, same': (Stack, Stack) -> bool)
    requires Sharing(same) && Sharing(same') && a.Entry? && b.Entry?
    ensures Less(a, b, same) ==> !Less(b, a, same')
    ensures !Less(a, b, same) && !Less(b, a, same') <==> a == b
    ensures Less(a, b, same) == Less(a, b, same')
  {
    if a.caller.Entry? && b.caller.Entry? {
      OrderIsTotal(a.caller, b.caller, same, same');
    }
  }

  lemma {:induction false} OrderIsTransitive(a: Stack, b: Stack, c: Stack, same: (Stack, Stack) -> bool)
    requires Sharing(same) && a.Entry? && b.Entry? && c.Entry?
    requires Less(a, b, same) && Less(b, c, same)
    ensures Less(a, c, same)
  {
    OrderIsTotal(a, b, same, same);
    if a.caller.Entry? && b.caller.Entry? && c.caller.Entry?
      && Less(a.caller, b.caller, same) && Less(b.caller, c.caller, same) {
      OrderIsTransitive(a.caller, b.caller, c.caller, same);
      OrderIsTotal(a.caller, c.caller, same, same);
    }
  }

  /** The locations of a stack from where one is back to the first caller. */
  function Locations(s: Stack): seq<nat> {
    match s
    case Null => []
    case Entry(location, caller) => [location] + Locations(caller)
  }

  predicate Earlier(l: nat, m: nat) {
    l < m
  }

  /** Stacks are ordered as words: by location first, then by caller; a stack comes before what it begins. */
  lemma {:induction false} OrderIsLexicographic(a: Stack, b: Stack, same: (Stack, Stack) -> bool)
    requires Sharing(same) && a.Entry? && b.Entry?
    ensures Less(a, b, same) <==> WordLess(Locations(a), Locations(b), Earlier, true)
    decreases a, 0
  {
    if a.location != b.location {
      OtherStart(Locations(a), Locations(b), Earlier, true);
    } else {
      SameStart(a.location, Locations(a.caller), Locations(b.caller), Earlier, true);
      CallersOrdered(a.caller, b.caller, same);
      if a.caller.Entry? && b.caller.Entry? {
        OrderIsTotal(a.caller, b.caller, same, same);
      }
    }
  }

  lemma {:induction false} CallersOrdered(p: Stack, q: Stack, same: (Stack, Stack) -> bool)
    requires Sharing(same)
    ensures q.Entry? && (p.Null? || Less(p, q, same)) <==> WordLess(Locations(p), Locations(q), Earlier, true)
    decreases p, 1
  {
    if p.Entry? && q.Entry? {
      OrderIsLexicographic(p, q, same);
    } else {
      EmptyWord(Locations(p), Locations(q), Earlier, true);
    }
  }

  // --- one step --------------------------------------------------------------------------------

  /** How often a location occurs in a chain. */
  function Count(s: Stack, l: nat): nat {
    match s
    case Null => 0
    case Entry(location, caller) => Count(caller, l) + if location == l then 1 else 0
  }

  function Depth(s: Stack): nat {
    match s
    case Null => 0
    case Entry(_, caller) => 1 + Depth(caller)
  }

  /** The most recent entry of a location in a chain. */
  function MostRecent(s: Stack, l: nat): (r: Stack)
    ensures r.Null? <==> Count(s, l) == 0
    ensures r.Entry? ==> r.location == l
  {
    match s
    case Null => Null
    case Entry(location, caller) => if location == l then s else MostRecent(caller, l)
  }

  /** What a call is pushed onto: the stack, or the last occurrence of the call site if it has too many. */
  function Shortened(s: Stack, limit: nat): (r: Stack)
    requires s.Entry?
    ensures r.Entry? && r.location == s.location
  {
    if limit > 0 && Count(s.caller, s.location) >= limit then MostRecent(s.caller, s.location) else s
  }

  /** The stack after an edge, if the edge is possible. */
  function NextStack(kind: nat -> Kind, limit: nat, s: Stack, to: nat): Option<Stack>
    requires s.Entry?
  {
    match kind(s.location)
    case Call =>
      if to == s.location + 1 then Some(Entry(to, s.caller)) else Some(Entry(to, Shortened(s, limit)))
    case End =>
      if s.caller.Entry? && to == s.caller.location + 1 then Some(Entry(to, s.caller.caller)) else None
    case Other =>
      Some(Entry(to, s.caller))
  }

  /** Walks back through the callers, counting how often the call site occurs. */
  method Shorten(s: Stack, limit: nat) returns (shorten: Stack)
    requires s.Entry?
    ensures shorten == Shortened(s, limit)
  {
    shorten := s;
    if limit != 0 {
      var calls := 0;
      var firstFound := Null;
      var i := s.caller;
      while i.Entry?
        invariant calls < limit && shorten == s
        invariant calls + Count(i, s.location) == Count(s.caller, s.location)
        invariant calls == 0 ==> firstFound.Null? && MostRecent(i, s.location) == MostRecent(s.caller, s.location)
        invariant calls > 0 ==> firstFound == MostRecent(s.caller, s.location)
        decreases i
      {
        if i.location == s.location {
          if firstFound.Null? {
            firstFound := i;
          }
          calls := calls + 1;
          if calls == limit {
            shorten := firstFound;
            break;
          }
        }
        i := i.caller;
      }
    }
  }

  /** What is left of a stack after taking some entries off its top. */
  predicate SuffixOf(r: Stack, s: Stack)
    decreases s
  {
    r == s || (s.Entry? && SuffixOf(r, s.caller))
  }

  /** The longest part of a chain that begins with a location. */
  ghost predicate LatestAt(s: Stack, l: nat, r: Stack) {
    && SuffixOf(r, s) && r.Entry? && r.location == l
    && forall q: Stack :: SuffixOf(q, s) && q.Entry? && q.location == l ==> SuffixOf(q, r)
  }

  lemma {:induction false} MostRecentIsLatest(s: Stack, l: nat)
    requires Count(s, l) > 0
    ensures LatestAt(s, l, MostRecent(s, l))
  {
    if s.location != l {
      MostRecentIsLatest(s.caller, l);
    }
  }

  lemma {:induction false} SuffixIsSmaller(r: Stack, s: Stack)
    requires SuffixOf(r, s)
    ensures Depth(r) <= Depth(s) && (Depth(r) == Depth(s) ==> r == s)
  {
    if r != s {
      SuffixIsSmaller(r, s.caller);
    }
  }

  /**
   A call is pushed onto the whole stack, unless its site is among the callers as often as allowed: then onto
   the longest proper part that begins with the site.
   */
  lemma CallIsPushedOnto(kind: nat -> Kind, limit: nat, s: Stack, to: nat, base: Stack)
    requires s.Entry? && kind(s.location) == Call && to != s.location + 1
    ensures NextStack(kind, limit, s, to) == Some(Entry(to, base)) <==>
      if limit == 0 || Count(s.caller, s.location) < limit then base == s else LatestAt(s.caller, s.location, base)
  {
    if limit > 0 && Count(s.caller, s.location) >= limit {
      MostRecentIsLatest(s.caller, s.location);
      var r := MostRecent(s.caller, s.location);
      if LatestAt(s.caller, s.location, base) {
        SuffixIsSmaller(r, base);
        SuffixIsSmaller(base, r);
      }
    }
  }

  /** Steps along an edge; an equal history that is already there is used instead of a new one. */
  method Step(kind: nat -> Kind, limit: nat, s: Stack, to: nat, others: set<Stack>) returns (r: StepResult<Stack>)
    requires s.Entry?
    ensures match NextStack(kind, limit, s, to)
            case None => r == Blocked
            case Some(next) => r == if next in others then Merged(next) else New(next)
  {
    var next;
    if kind(s.location) == Call {
      if to == s.location + 1 {
        next := Entry(to, s.caller);
      } else {
        var shorten := Shorten(s, limit);
        next := Entry(to, shorten);
      }
    } else if kind(s.location) == End {
      if s.caller.Null? {
        return Blocked;
      } else if to == s.caller.location + 1 {
        next := Entry(to, s.caller.caller);
      } else {
        return Blocked;
      }
    } else {
      next := Entry(to, s.caller);
    }
    r := if next in others then Merged(next) else New(next);
  }

  /** The stack after a sequence of edges from the start of an analysis. */
  function Walk(kind: nat -> Kind, limit: nat, start: nat, tos: seq<nat>): (r: Option<Stack>)
    ensures r.Some? ==> r.value.Entry? && r.value.location == if tos == [] then start else tos[|tos| - 1]
  {
    if tos == [] then Some(Entry(start, Null))
    else
      match Walk(kind, limit, start, tos[..|tos| - 1])
      case None => None
      case Some(s) => NextStack(kind, limit, s, tos[|tos| - 1])
  }

  // --- bounded call strings ------------------------------------------------------------------------

  /** All callers are call sites of the program, and none occurs more than `limit` times. */
  ghost predicate BoundedChain(kind: nat -> Kind, limit: nat, chain: Stack) {
    && (forall l :: Count(chain, l) <= limit)
    && (forall l :: Count(chain, l) > 0 ==> kind(l) == Call)
  }

  lemma {:induction false} MostRecentCounts(s: Stack, l: nat, m: nat)
    ensures Count(MostRecent(s, l), m) <= Count(s, m)
    ensures m == l ==> Count(MostRecent(s, l), m) == Count(s, m)
  {
    if s.Entry? && s.location != l {
      MostRecentCounts(s.caller, l, m);
    }
  }

  lemma StepStaysBounded(kind: nat -> Kind, limit: nat, s: Stack, to: nat)
    requires limit > 0 && s.Entry? && BoundedChain(kind, limit, s.caller)
    requires NextStack(kind, limit, s, to).Some?
    ensures BoundedChain(kind, limit, NextStack(kind, limit, s, to).value.caller)
  {
    var next := NextStack(kind, limit, s, to).value;
    forall l
      ensures Count(next.caller, l) <= limit && (Count(next.caller, l) > 0 ==> kind(l) == Call)
    {
      assert Count(s.caller, l) <= limit;
      MostRecentCounts(s.caller, s.location, l);
      if s.caller.Entry? {
        assert Count(s.caller.caller, l) <= Count(s.caller, l);
      }
    }
  }

  /** With a limit, no reachable history has a call site more than `limit` times among its callers. */
  lemma {:induction false} CallStringsAreBounded(kind: nat -> Kind, limit: nat, start: nat, tos: seq<nat>)
    requires limit > 0 && Walk(kind, limit, start, tos).Some?
    ensures BoundedChain(kind, limit, Walk(kind, limit, start, tos).value.caller)
  {
    if tos != [] {
      CallStringsAreBounded(kind, limit, start, tos[..|tos| - 1]);
      var s := Walk(kind, limit, start, tos[..|tos| - 1]).value;
      StepStaysBounded(kind, limit, s, tos[|tos| - 1]);
    }
  }

  function Total(chain: Stack, sites: set<nat>): nat {
    match chain
    case Null => 0
    case Entry(l, caller) => Total(caller, sites) + if l in sites then 1 else 0
  }

  lemma {:induction false} TotalBySite(chain: Stack, sites: set<nat>, l: nat)
    requires l in sites
    ensures Total(chain, sites) == Total(chain, sites - {l}) + Count(chain, l)
  {
    if chain.Entry? {
      TotalBySite(chain.caller, sites, l);
    }
  }

  lemma {:induction false} TotalIsBounded(chain: Stack, sites: set<nat>, limit: nat)
    requires forall l :: Count(chain, l) <= limit
    ensures Total(chain, sites) <= limit * |sites|
    decreases |sites|
  {
    if sites == {} {
      NoSites(chain);
    } else {
      var l :| l in sites;
      TotalBySite(chain, sites, l);
      TotalIsBounded(chain, sites - {l}, limit);
    }
  }

  lemma {:induction false} NoSites(chain: Stack)
    ensures Total(chain, {}) == 0
  {
    if chain.Entry? {
      NoSites(chain.caller);
    }
  }

  lemma {:induction false} AllSites(chain: Stack, sites: set<nat>)
    requires forall l :: Count(chain, l) > 0 ==> l in sites
    ensures Total(chain, sites) == Depth(chain)
  {
    if chain.Entry? {
      forall l | Count(chain.caller, l) > 0
        ensures l in sites
      {
        assert Count(chain, l) > 0;
      }
      assert Count(chain, chain.location) > 0;
      AllSites(chain.caller, sites);
    }
  }

  /** All stacks up to a depth over a finite set of locations. */
  ghost function StacksUpTo(locations: set<nat>, depth: nat): set<Stack> {
    if depth == 0 then {Null}
    else
      var shorter := StacksUpTo(locations, depth - 1);
      {Null} + set l, s | l in locations && s in shorter :: Entry(l, s)
  }

  lemma {:induction false} InStacksUpTo(s: Stack, locations: set<nat>, depth: nat)
    requires Depth(s) <= depth && forall l :: Count(s, l) > 0 ==> l in locations
    ensures s in StacksUpTo(locations, depth)
  {
    if s.Entry? {
      forall l | Count(s.caller, l) > 0
        ensures l in locations
      {
        assert Count(s, l) > 0;
      }
      assert Count(s, s.location) > 0;
      InStacksUpTo(s.caller, locations, depth - 1);
    }
  }

  /** So the depth is at most one more than `limit` per call site, and the histories are finitely many. */
  lemma HistoriesAreFinite(kind: nat -> Kind, limit: nat, start: nat, tos: seq<nat>, n: nat, sites: set<nat>)
    requires limit > 0 && Walk(kind, limit, start, tos).Some?
    requires forall l :: kind(l) == Call ==> l in sites
    ensures
      var h := Walk(kind, limit, start, tos).value;
      var l := h.location;
      Depth(h) <= 1 + limit * |sites| && h in StacksUpTo({l} + sites, 1 + limit * |sites|)
  {
    var h := Walk(kind, limit, start, tos).value;
    CallStringsAreBounded(kind, limit, start, tos);
    AllSites(h.caller, sites);
    TotalIsBounded(h.caller, sites, limit);
    forall l | Count(h, l) > 0
      ensures l in {h.location} + sites
    {
      if l != h.location {
        assert Count(h.caller, l) > 0;
      }
    }
    InStacksUpTo(h, {h.location} + sites, 1 + limit * |sites|);
  }

  // --- exact call strings --------------------------------------------------------------------------

  /** Whether the edge out of position `i` of a trace enters a function, leaves one, or neither. */
  function Delta(kind: nat -> Kind, t: seq<nat>, i: nat): int
    requires i + 1 < |t|
  {
    if kind(t[i]) == Call && t[i + 1] != t[i] + 1 then 1
    else if kind(t[i]) == End then -1
    else 0
  }

  /** Functions entered less functions left, from position `i` to position `j`. */
  function Level(kind: nat -> Kind, t: seq<nat>, i: nat, j: nat): int
    requires i <= j < |t|
  {
    if i == j then 0 else Level(kind, t, i, j - 1) + Delta(kind, t, j - 1)
  }

  /** The edge out of `i` calls, and what it calls has not been left since. */
  ghost predicate Unmatched(kind: nat -> Kind, t: seq<nat>, i: nat) {
    && i + 1 < |t|
    && Delta(kind, t, i) == 1
    && forall j :: i < j < |t| ==> Level(kind, t, i, j) >= 1
  }

  /** The positions of the unmatched calls among the first `n`, in order. */
  ghost function UnmatchedBelow(kind: nat -> Kind, t: seq<nat>, n: nat): (u: seq<nat>)
    ensures Sorted(u)
    ensures forall i: nat :: i in u <==> i < n && Unmatched(kind, t, i)
  {
    if n == 0 then []
    else
      var u := UnmatchedBelow(kind, t, n - 1);
      assert forall k :: 0 <= k < |u| ==> u[k] in u;
      if Unmatched(kind, t, n - 1) then u + [n - 1] else u
  }

  ghost function UnmatchedCalls(kind: nat -> Kind, t: seq<nat>): (u: seq<nat>)
    ensures Sorted(u)
    ensures forall i: nat :: i in u <==> Unmatched(kind, t, i)
    ensures forall a :: 0 <= a < |u| ==> u[a] + 1 < |t|
  {
    var u := UnmatchedBelow(kind, t, |t|);
    assert forall a :: 0 <= a < |u| ==> u[a] in u;
    u
  }

  /** The sites of these calls as a chain of callers, the last one first. */
  function Chain(t: seq<nat>, u: seq<nat>): Stack
    requires forall a :: 0 <= a < |u| ==> u[a] < |t|
  {
    if u == [] then Null else Entry(t[u[|u| - 1]], Chain(t, u[..|u| - 1]))
  }

  /** Each unmatched call is as many levels down as there are unmatched calls from it on. */
  ghost predicate Nested(kind: nat -> Kind, t: seq<nat>, u: seq<nat>) {
    && t != [] && (forall a :: 0 <= a < |u| ==> u[a] < |t|)
    && forall a :: 0 <= a < |u| ==> Level(kind, t, u[a], |t| - 1) == |u| - a
  }

  lemma {:induction false} LevelStays(kind: nat -> Kind, t: seq<nat>, to: nat, i: nat, j: nat)
    requires i <= j < |t|
    ensures Level(kind, t + [to], i, j) == Level(kind, t, i, j)
  {
    if i < j {
      LevelStays(kind, t, to, i, j - 1);
    }
  }

  /** What one more edge does to the matching of the earlier calls. */
  lemma UnmatchedStep(kind: nat -> Kind, t: seq<nat>, to: nat, i: nat)
    requires i + 1 < |t|
    ensures
      var n := |t| - 1;
      Unmatched(kind, t + [to], i) <==>
        Unmatched(kind, t, i) && Level(kind, t, i, n) + Delta(kind, t + [to], n) >= 1
  {
    var t' := t + [to];
    forall j | i < j < |t|
      ensures Level(kind, t', i, j) == Level(kind, t, i, j)
    {
      LevelStays(kind, t, to, i, j);
    }
    assert Level(kind, t', i, |t|) == Level(kind, t', i, |t| - 1) + Delta(kind, t', |t| - 1);
    assert Delta(kind, t', i) == Delta(kind, t, i);
    if Unmatched(kind, t', i) {
      assert Level(kind, t', i, |t|) >= 1;
      forall j | i < j < |t|
        ensures Level(kind, t, i, j) >= 1
      {
        assert Level(kind, t', i, j) >= 1;
      }
    }
  }

  /** The unmatched calls after an edge: a call adds itself, a return takes the last one away. */
  ghost function AfterEdge(u: seq<nat>, delta: int, n: nat): seq<nat>
    requires delta < 0 ==> u != []
  {
    if delta > 0 then u + [n] else if delta < 0 then u[..|u| - 1] else u
  }

  lemma UnmatchedAfterEdge(kind: nat -> Kind, t: seq<nat>, to: nat, u: seq<nat>)
    requires u == UnmatchedCalls(kind, t) && Nested(kind, t, u)
    requires
      var delta := Delta(kind, t + [to], |t| - 1);
      delta < 0 ==> u != []
    ensures
      var u' := AfterEdge(u, Delta(kind, t + [to], |t| - 1), |t| - 1);
      u' == UnmatchedCalls(kind, t + [to]) && Nested(kind, t + [to], u')
  {
    var n, t' := |t| - 1, t + [to];
    var delta := Delta(kind, t', n);
    var u', all := AfterEdge(u, delta, n), UnmatchedCalls(kind, t');
    forall i: nat
      ensures i in u' <==> i in all
    {
      if i < n {
        UnmatchedStep(kind, t, to, i);
        InAfterEdge(kind, t, u, delta, n, i);
      } else if i == n {
        assert Level(kind, t', n, n) == 0 && Level(kind, t', n, n + 1) == delta;
        assert Unmatched(kind, t', n) <==> delta == 1;
      }
    }
    assert Sorted(u');
    assert Elements(u') == Elements(all);
    SameElements(u', all);
    forall a | 0 <= a < |u'|
      ensures Level(kind, t', u'[a], n + 1) == |u'| - a
    {
      if a < |u| {
        LevelStays(kind, t, to, u[a], n);
      } else {
        assert Level(kind, t', n, n) == 0;
      }
    }
  }

  lemma NotLast(u: seq<nat>, a: nat)
    requires Sorted(u) && a < |u|
    ensures u[a] in u[..|u| - 1] <==> a < |u| - 1
  {
    if a < |u| - 1 {
      assert u[..|u| - 1][a] == u[a];
    }
  }

  lemma InAfterEdge(kind: nat -> Kind, t: seq<nat>, u: seq<nat>, delta: int, n: nat, i: nat)
    requires Nested(kind, t, u) && Sorted(u) && n == |t| - 1 && i < n && -1 <= delta <= 1
    requires delta < 0 ==> u != []
    ensures i in AfterEdge(u, delta, n) <==> i in u && Level(kind, t, i, n) + delta >= 1
  {
    if i in u {
      var a :| 0 <= a < |u| && u[a] == i;
      assert Level(kind, t, i, n) == |u| - a;
      NotLast(u, a);
    }
  }

  lemma {:induction false} ChainStays(t: seq<nat>, to: nat, u: seq<nat>)
    requires forall a :: 0 <= a < |u| ==> u[a] < |t|
    ensures Chain(t + [to], u) == Chain(t, u)
  {
    if u != [] {
      ChainStays(t, to, u[..|u| - 1]);
    }
  }

  /** Without a limit, the callers are exactly the unmatched calls of the trace. */
  lemma {:induction false} CallStringsAreExact(kind: nat -> Kind, start: nat, tos: seq<nat>)
    requires Walk(kind, 0, start, tos).Some?
    ensures
      var t := [start] + tos;
      Nested(kind, t, UnmatchedCalls(kind, t))
      && Walk(kind, 0, start, tos).value == Entry(t[|tos|], Chain(t, UnmatchedCalls(kind, t)))
  {
    if tos == [] {
      assert UnmatchedBelow(kind, [start], 0) == [] && !Unmatched(kind, [start], 0);
    } else {
      var before, to := tos[..|tos| - 1], tos[|tos| - 1];
      CallStringsAreExact(kind, start, before);
      var t := [start] + before;
      var u := UnmatchedCalls(kind, t);
      assert [start] + tos == t + [to];
      UnmatchedAfterEdge(kind, t, to, u);
      var u' := UnmatchedCalls(kind, t + [to]);
      ChainAfterEdge(kind, t, to, u);
    }
  }

  /** The chain of callers follows the unmatched calls over one edge. */
  lemma ChainAfterEdge(kind: nat -> Kind, t: seq<nat>, to: nat, u: seq<nat>)
    requires t != [] && forall a :: 0 <= a < |u| ==> u[a] < |t|
    requires NextStack(kind, 0, Entry(t[|t| - 1], Chain(t, u)), to).Some?
    ensures
      var u' := AfterEdge(u, Delta(kind, t + [to], |t| - 1), |t| - 1);
      && (forall a :: 0 <= a < |u'| ==> u'[a] < |t|)
      && NextStack(kind, 0, Entry(t[|t| - 1], Chain(t, u)), to) == Some(Entry(to, Chain(t + [to], u')))
  {
    var u' := AfterEdge(u, Delta(kind, t + [to], |t| - 1), |t| - 1);
    ChainStays(t, to, u);
    if u != [] {
      ChainStays(t, to, u[..|u| - 1]);
    }
    if Delta(kind, t + [to], |t| - 1) > 0 {
      assert u'[..|u|] == u;
    }
  }

  /** A step is refused exactly when it returns with no unmatched call, or not to behind the last one. */
  lemma BlockedExactly(kind: nat -> Kind, start: nat, tos: seq<nat>, to: nat)
    requires Walk(kind, 0, start, tos).Some?
    ensures
      var t := [start] + tos;
      var u := UnmatchedCalls(kind, t);
      Walk(kind, 0, start, tos + [to]).None? <==>
        kind(t[|tos|]) == End && (u == [] || to != t[u[|u| - 1]] + 1)
  {
    CallStringsAreExact(kind, start, tos);
    assert (tos + [to])[..|tos|] == tos;
  }

  // --- exact up to the limit -----------------------------------------------------------------------

  /** How often a call site is among the calls of a trace that are not returned from. */
  ghost function OpenCalls(kind: nat -> Kind, t: seq<nat>, l: nat): nat {
    Count(Chain(t, UnmatchedCalls(kind, t)), l)
  }

  /** At no time are more calls of one site open than allowed. */
  ghost predicate NeverDeeper(kind: nat -> Kind, limit: nat, start: nat, tos: seq<nat>) {
    forall n: nat, l: nat :: n <= |tos| ==> OpenCalls(kind, [start] + tos[..n], l) <= limit
  }

  /** The limit makes no difference along the trace. */
  ghost predicate NotShortened(kind: nat -> Kind, limit: nat, start: nat, tos: seq<nat>) {
    forall n: nat :: n <= |tos| ==> Walk(kind, limit, start, tos[..n]) == Walk(kind, 0, start, tos[..n])
  }

  lemma WalkBefore(kind: nat -> Kind, limit: nat, start: nat, tos: seq<nat>, n: nat)
    requires n < |tos|
    ensures Walk(kind, limit, start, tos[..n + 1]) ==
      match Walk(kind, limit, start, tos[..n])
      case None => None
      case Some(s) => NextStack(kind, limit, s, tos[n])
  {
    assert tos[..n + 1][..n] == tos[..n];
  }

  lemma {:induction false} WalkGoesOn(kind: nat -> Kind, start: nat, tos: seq<nat>, n: nat)
    requires Walk(kind, 0, start, tos).Some? && n <= |tos|
    ensures Walk(kind, 0, start, tos[..n]).Some?
    decreases |tos| - n
  {
    if n == |tos| {
      assert tos[..n] == tos;
    } else {
      WalkGoesOn(kind, start, tos, n + 1);
      WalkBefore(kind, 0, start, tos, n);
    }
  }

  /** Without a limit, the callers are the open calls. */
  lemma OpenCallsAreCallers(kind: nat -> Kind, start: nat, tos: seq<nat>, l: nat)
    requires Walk(kind, 0, start, tos).Some?
    ensures Count(Walk(kind, 0, start, tos).value.caller, l) == OpenCalls(kind, [start] + tos, l)
  {
    CallStringsAreExact(kind, start, tos);
  }

  lemma {:induction false} SameUpTo(kind: nat -> Kind, limit: nat, start: nat, tos: seq<nat>, n: nat)
    requires limit > 0 && Walk(kind, 0, start, tos).Some? && NeverDeeper(kind, limit, start, tos) && n <= |tos|
    ensures Walk(kind, limit, start, tos[..n]) == Walk(kind, 0, start, tos[..n])
  {
    if n > 0 {
      SameUpTo(kind, limit, start, tos, n - 1);
      WalkGoesOn(kind, start, tos, n - 1);
      WalkGoesOn(kind, start, tos, n);
      WalkBefore(kind, 0, start, tos, n - 1);
      WalkBefore(kind, limit, start, tos, n - 1);
      var s := Walk(kind, 0, start, tos[..n - 1]).value;
      OpenCallsAreCallers(kind, start, tos[..n], s.location);
      assert OpenCalls(kind, [start] + tos[..n], s.location) <= limit;
    }
  }

  /** The limit makes no difference as long as, and only as long as, no site has more open calls than allowed. */
  lemma ExactUpToLimit(kind: nat -> Kind, limit: nat, start: nat, tos: seq<nat>)
    requires limit > 0 && Walk(kind, 0, start, tos).Some?
    ensures NotShortened(kind, limit, start, tos) <==> NeverDeeper(kind, limit, start, tos)
  {
    if NeverDeeper(kind, limit, start, tos) {
      forall n: nat | n <= |tos|
        ensures Walk(kind, limit, start, tos[..n]) == Walk(kind, 0, start, tos[..n])
      {
        SameUpTo(kind, limit, start, tos, n);
      }
    }
    if NotShortened(kind, limit, start, tos) {
      forall n: nat, l: nat | n <= |tos|
        ensures OpenCalls(kind, [start] + tos[..n], l) <= limit
      {
        WalkGoesOn(kind, start, tos, n);
        assert Walk(kind, limit, start, tos[..n]) == Walk(kind, 0, start, tos[..n]);
        CallStringsAreBounded(kind, limit, start, tos[..n]);
        OpenCallsAreCallers(kind, start, tos[..n], l);
      }
    }
  }
}
