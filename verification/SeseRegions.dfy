/**
 Single-entry, single-exit regions: an entry and the closest exit such that the entry
 dominates the exit, the exit post-dominates the entry, and both lie in the same loops.
 */
module SeseRegions {
  import opened Cfg
  import opened Options
  import opened Dominance
  import opened Dominators
  import opened GotoProgram
  import opened NaturalLoops

  /** The places where control can leave the function, as the post-dominator analysis sees them. */
  function Exits(p: Program): set<nat>
    requires WellFormed(p)
  {
    var g := LocalGraph(p);
    {|p| - 1} + set n: nat | n < |p| && (g.out[n] == [] || g.out[n] == [n])
  }

  // --- innermost loops -------------------------------------------------------------------

  /** The loop of `h` is the smallest of the loops that contain `x`; of equals, the first. */
  ghost predicate Innermost(loopMap: map<nat, set<nat>>, x: nat, h: nat) {
    && h in loopMap && x in loopMap[h]
    && forall k: nat :: k in loopMap && x in loopMap[k] ==>
      |loopMap[h]| <= |loopMap[k]| && (|loopMap[h]| == |loopMap[k]| ==> h <= k)
  }

  /** Exactly the instructions in loops are mapped, each to its innermost loop. */
  ghost predicate InnermostLoops(loopMap: map<nat, set<nat>>, inner: map<nat, nat>) {
    && (forall x: nat :: x in inner <==> exists h: nat :: h in loopMap && x in loopMap[h])
    && (forall x: nat :: x in inner ==> Innermost(loopMap, x, inner[x]))
  }

  ghost predicate InnermostBefore(loopMap: map<nat, set<nat>>, k: nat, x: nat, h: nat) {
    && h < k && h in loopMap && x in loopMap[h]
    && forall m: nat :: m < k && m in loopMap && x in loopMap[m] ==>
      |loopMap[h]| <= |loopMap[m]| && (|loopMap[h]| == |loopMap[m]| ==> h <= m)
  }

  ghost predicate InnermostAt(loopMap: map<nat, set<nat>>, k: nat, inner: map<nat, nat>, x: nat) {
    && (x in inner <==> InLoopBefore(loopMap, k, x))
    && (x in inner ==> InnermostBefore(loopMap, k, x, inner[x]))
  }

  ghost predicate InnermostKnown(loopMap: map<nat, set<nat>>, k: nat, inner: map<nat, nat>) {
    forall x: nat :: InnermostAt(loopMap, k, inner, x)
  }

  /** Maps each instruction to the header of its smallest loop, walking the loops in order. */
  method ComputeInnermostLoops(loopMap: map<nat, set<nat>>, n: nat) returns (inner: map<nat, nat>)
    requires forall h: nat :: h in loopMap ==> h < n && forall x :: x in loopMap[h] ==> x < n
    ensures InnermostLoops(loopMap, inner)
  {
    inner := map[];
    for h := 0 to n
      invariant InnermostKnown(loopMap, h, inner)
    {
      if h in loopMap {
        inner := ClaimInstructions(loopMap, n, h, inner);
      } else {
        SkipHeader(loopMap, h, inner);
      }
    }
    forall x: nat
      ensures x in inner <==> exists h: nat :: h in loopMap && x in loopMap[h]
      ensures x in inner ==> Innermost(loopMap, x, inner[x])
    {
      assert InnermostAt(loopMap, n, inner, x);
    }
  }

  lemma SkipHeader(loopMap: map<nat, set<nat>>, h: nat, inner: map<nat, nat>)
    requires h !in loopMap && InnermostKnown(loopMap, h, inner)
    ensures InnermostKnown(loopMap, h + 1, inner)
  {
    var next := h + 1;
    forall x: nat
      ensures InnermostAt(loopMap, next, inner, x)
    {
      assert InnermostAt(loopMap, h, inner, x);
      if InLoopBefore(loopMap, h + 1, x) {
        var k: nat :| k < h + 1 && k in loopMap && x in loopMap[k];
      }
    }
  }

  /** Gives the loop of `h` every instruction that has no smaller loop yet. */
  method ClaimInstructions(loopMap: map<nat, set<nat>>, n: nat, h: nat, inner0: map<nat, nat>)
    returns (inner: map<nat, nat>)
    requires h in loopMap && forall x :: x in loopMap[h] ==> x < n
    requires InnermostKnown(loopMap, h, inner0)
    ensures InnermostKnown(loopMap, h + 1, inner)
  {
    inner := inner0;
    ghost var next := h + 1;
    for x := 0 to n
      invariant forall y: nat :: y < x ==> InnermostAt(loopMap, next, inner, y)
      invariant forall y: nat :: y >= x ==> InnermostAt(loopMap, h, inner, y)
    {
      ghost var before := inner;
      assert InnermostAt(loopMap, h, before, x);
      if x in loopMap[h] {
        if x !in inner {
          inner := inner[x := h];
        } else if |loopMap[inner[x]]| > |loopMap[h]| {
          inner := inner[x := h];
        }
      }
      ClaimOne(loopMap, h, x, before, inner);
      assert forall y: nat, k :: y != x && InnermostAt(loopMap, k, before, y) ==> InnermostAt(loopMap, k, inner, y);
    }
    forall y: nat
      ensures InnermostAt(loopMap, next, inner, y)
    {
      if y >= n {
        assert InnermostAt(loopMap, h, inner, y);
        NotInThisLoop(loopMap, h, inner, y);
      }
    }
  }

  lemma NotInThisLoop(loopMap: map<nat, set<nat>>, h: nat, inner: map<nat, nat>, y: nat)
    requires h in loopMap && y !in loopMap[h] && InnermostAt(loopMap, h, inner, y)
    ensures InnermostAt(loopMap, h + 1, inner, y)
  {
    if InLoopBefore(loopMap, h + 1, y) {
      var k: nat :| k < h + 1 && k in loopMap && y in loopMap[k];
    }
  }

  predicate InLoopBefore(loopMap: map<nat, set<nat>>, k: nat, x: nat) {
    exists h: nat :: h < k && h in loopMap && x in loopMap[h]
  }

  lemma ClaimOne(loopMap: map<nat, set<nat>>, h: nat, x: nat, before: map<nat, nat>, after: map<nat, nat>)
    requires h in loopMap
    requires InnermostAt(loopMap, h, before, x)
    requires
      var claims := x in loopMap[h] && (x !in before || (before[x] in loopMap && |loopMap[before[x]]| > |loopMap[h]|));
      after == if claims then before[x := h] else before
    ensures InnermostAt(loopMap, h + 1, after, x)
  {
    if InLoopBefore(loopMap, h + 1, x) {
      var k: nat :| k < h + 1 && k in loopMap && x in loopMap[k];
      assert k == h || InLoopBefore(loopMap, h, x);
    }
  }

  /** Of two loops that share a reachable instruction, the smaller is inside the larger. */
  lemma SmallerLoopInside(p: Program, loopMap: map<nat, set<nat>>, h: nat, k: nat, x: nat)
    requires WellFormed(p) && ExactLoops(p, loopMap)
    requires h in loopMap && k in loopMap && x in loopMap[h] && x in loopMap[k]
    requires Reachable(LocalGraph(p), ENTRY, x)
    requires |loopMap[h]| <= |loopMap[k]|
    ensures loopMap[h] <= loopMap[k]
  {
    var g := LocalGraph(p);
    HeaderDominatesMembers(p, h, x);
    HeaderDominatesMembers(p, k, x);
    DominatorsFormChain(g, ENTRY, h, k, x);
    if h != k {
      if Dominates(g, ENTRY, k, h) {
        LoopsNest(p, k, h, x);
      } else {
        LoopsNest(p, h, k, x);
        LoopsAreClosed(p, |p|, loopMap, h);
        assert loopMap[k] < loopMap[h];
        SubsetCardinality(loopMap[k], loopMap[h]);
      }
    }
  }

  /** The headers of the loops that contain `x`. */
  ghost function LoopsAround(p: Program, x: nat): set<nat>
    requires WellFormed(p)
  {
    set h | h in Range(|p|) && Member(p, h, x)
  }

  lemma LoopsAroundKnown(p: Program, loopMap: map<nat, set<nat>>, x: nat)
    requires WellFormed(p) && ExactLoops(p, loopMap)
    ensures forall h: nat :: h in LoopsAround(p, x) <==> h in loopMap && x in loopMap[h]
  {
    LoopsInRange(p, loopMap);
    forall h: nat
      ensures Member(p, h, x) <==> h in loopMap && x in loopMap[h]
    {
      assert Member(p, h, x) ==> IsHeader(p, h);
    }
  }

  /** Instructions with the same innermost loop are in exactly the same loops. */
  lemma SameInnermostSameLoops(p: Program, loopMap: map<nat, set<nat>>, inner: map<nat, nat>, a: nat, b: nat)
    requires WellFormed(p) && ExactLoops(p, loopMap)
    requires InnermostLoops(loopMap, inner)
    requires Reachable(LocalGraph(p), ENTRY, a) && Reachable(LocalGraph(p), ENTRY, b)
    requires (a in inner <==> b in inner) && (a in inner ==> inner[a] == inner[b])
    ensures LoopsAround(p, a) == LoopsAround(p, b)
  {
    LoopsAroundKnown(p, loopMap, a);
    LoopsAroundKnown(p, loopMap, b);
    forall k: nat
      ensures k in LoopsAround(p, a) <==> k in LoopsAround(p, b)
    {
      if k in loopMap && a in loopMap[k] {
        SmallerLoopInside(p, loopMap, inner[a], k, a);
      }
      if k in loopMap && b in loopMap[k] {
        SmallerLoopInside(p, loopMap, inner[b], k, b);
      }
    }
  }

  // --- candidate exits --------------------------------------------------------------------

  /** The entry dominates `b` and `b` post-dominates the entry. */
  ghost predicate Region(p: Program, a: nat, b: nat)
    requires WellFormed(p)
  {
    && a != b
    && Reachable(LocalGraph(p), ENTRY, b) && Dominates(LocalGraph(p), ENTRY, a, b)
    && PostDominates(LocalGraph(p), Exits(p), b, a)
  }

  /** Past a dominator that is not dominated in turn, there is a way that avoids it. */
  lemma AvoidingWay(g: Graph, roots: set<nat>, a: nat, e: nat, f: nat) returns (path: seq<nat>)
    requires Dominates(g, roots, a, f) && !Dominates(g, roots, e, f)
    ensures PathBetween(g, a, f, path) && e !in path
  {
    var full: seq<nat> :| RootedPath(g, roots, f, full) && e !in full;
    var i :| 0 <= i < |full| && full[i] == a;
    PathSlice(g, full, i, |full|);
    path := full[i..];
  }

  lemma PostDominatedInTurn(g: Graph, exits: set<nat>, a: nat, e: nat, f: nat, way: seq<nat>)
    requires PostDominates(g, exits, e, a) && PostDominates(g, exits, f, a)
    requires PathBetween(g, a, f, way) && e !in way
    ensures PostDominates(g, exits, e, f)
  {
    var out: seq<nat> :| ExitPath(g, exits, a, out);
    var i :| 0 <= i < |out| && out[i] == f;
    PathSlice(g, out, i, |out|);
    assert ExitPath(g, exits, f, out[i..]);
    forall q: seq<nat> | ExitPath(g, exits, f, q)
      ensures e in q
    {
      PathJoin(g, way, q);
      assert ExitPath(g, exits, a, Join(way, q));
    }
  }

  /** All exits for one entry are ordered by dominance. */
  lemma CandidatesFormChain(p: Program, a: nat, e: nat, f: nat)
    requires WellFormed(p) && Region(p, a, e) && Region(p, a, f)
    ensures Dominates(LocalGraph(p), ENTRY, e, f) || Dominates(LocalGraph(p), ENTRY, f, e)
  {
    var g := LocalGraph(p);
    if !Dominates(g, ENTRY, e, f) && !Dominates(g, ENTRY, f, e) {
      var toF := AvoidingWay(g, ENTRY, a, e, f);
      var toE := AvoidingWay(g, ENTRY, a, f, e);
      PostDominatedInTurn(g, Exits(p), a, e, f, toF);
      PostDominatedInTurn(g, Exits(p), a, f, e, toE);
      PostDominanceIsReverseDominance(g, Exits(p), e);
      PostDominanceIsReverseDominance(g, Exits(p), f);
      DominatesAntisymmetric(g.Reverse(), Exits(p), e, f);
      DominatesReflexive(g, ENTRY, e);
    }
  }

  /** A strict dominator has strictly fewer dominators. */
  lemma FewerDominators(g: Graph, roots: set<nat>, doms: seq<seq<nat>>, a: nat, b: nat)
    requires Exact(g, roots, doms) && a != b && a < |doms| && b < |doms|
    requires Reachable(g, roots, b) && Dominates(g, roots, a, b)
    ensures |doms[a]| < |doms[b]|
  {
    DominatorReachable(g, roots, a, b);
    forall d | d in doms[a]
      ensures d in doms[b]
    {
      DominatesTransitive(g, roots, d, a, b);
    }
    if b in doms[a] {
      DominatesAntisymmetric(g, roots, a, b);
    }
    DominatesReflexive(g, roots, b);
    SubsetSize(doms[a], doms[b]);
  }

  // --- the regions -------------------------------------------------------------------------

  /** A region whose ends lie in exactly the same loops. */
  ghost predicate LoopRegion(p: Program, a: nat, b: nat)
    requires WellFormed(p)
  {
    Region(p, a, b) && LoopsAround(p, a) == LoopsAround(p, b)
  }

  /** Not just a straight step from one instruction to its only successor. */
  predicate NontrivialEntry(p: Program, a: nat)
    requires WellFormed(p) && a < |p|
  {
    var s := Successors(p, a);
    !(|s| == 1 && |FlowGraph(p).into[s[0]]| == 1)
  }

  /** `b` is the exit closest to `a`: it dominates all others. */
  ghost predicate ClosestExit(p: Program, a: nat, b: nat)
    requires WellFormed(p)
  {
    LoopRegion(p, a, b) && forall c: nat :: LoopRegion(p, a, c) ==> Dominates(LocalGraph(p), ENTRY, b, c)
  }

  /** The exit recorded for an entry. */
  ghost function RegionExit(p: Program, a: nat): Option<nat>
    requires WellFormed(p) && a < |p|
  {
    if NontrivialEntry(p, a) && exists b: nat :: ClosestExit(p, a, b) then
      var b: nat :| ClosestExit(p, a, b);
      Some(b)
    else None
  }

  ghost function RegionExits(p: Program): seq<Option<nat>>
    requires WellFormed(p)
  {
    seq(|p|, a requires 0 <= a < |p| => RegionExit(p, a))
  }

  /** The map holds the first `k` of the wanted exits, and nothing else. */
  ghost predicate Recorded(exits: seq<Option<nat>>, k: nat, regions: map<nat, nat>)
    requires k <= |exits|
  {
    && (forall a: nat :: a in regions ==> a < k)
    && (forall a: nat :: a < k ==> exits[a] == if a in regions then Some(regions[a]) else None)
  }

  ghost predicate ExactRegions(p: Program, regions: map<nat, nat>)
    requires WellFormed(p)
  {
    Recorded(RegionExits(p), |p|, regions)
  }

  /** The closest exit is unique. */
  lemma ClosestExitUnique(p: Program, a: nat, b: nat, c: nat)
    requires WellFormed(p) && ClosestExit(p, a, b) && ClosestExit(p, a, c)
    ensures b == c
  {
    DominatesAntisymmetric(LocalGraph(p), ENTRY, b, c);
  }

  /** An entry with any region at all has a closest exit, and that is what is recorded. */
  lemma RegionExitIsClosest(p: Program, a: nat, b: nat)
    requires WellFormed(p) && a < |p| && NontrivialEntry(p, a)
    ensures RegionExit(p, a) == Some(b) <==> ClosestExit(p, a, b)
    ensures RegionExit(p, a) == None <==> forall c: nat :: !LoopRegion(p, a, c)
  {
    if ClosestExit(p, a, b) {
      ClosestExitUnique(p, a, b, RegionExit(p, a).value);
    }
    if c: nat :| LoopRegion(p, a, c) {
      var _ := ClosestExitExists(p, a, c);
    }
  }

  lemma ClosestExitExists(p: Program, a: nat, c: nat) returns (b: nat)
    requires WellFormed(p) && LoopRegion(p, a, c)
    ensures ClosestExit(p, a, b)
  {
    var candidates := set e: nat | e in Range(|p|) && LoopRegion(p, a, e);
    RegionInRange(p, a, c);
    assert c in candidates;
    forall e, f | e in candidates && f in candidates
      ensures Dominates(LocalGraph(p), ENTRY, e, f) || Dominates(LocalGraph(p), ENTRY, f, e)
    {
      CandidatesFormChain(p, a, e, f);
    }
    b := FirstOfChain(LocalGraph(p), ENTRY, candidates);
    forall e: nat | LoopRegion(p, a, e)
      ensures Dominates(LocalGraph(p), ENTRY, b, e)
    {
      RegionInRange(p, a, e);
      assert e in candidates;
    }
  }

  /** Every backwards edge ends at a header, and no header has two of them: all that is tested of cycles. */
  ghost predicate CyclesAreSimple(p: Program)
    requires WellFormed(p)
  {
    && (forall b: nat :: BackwardsEdgesEnterHeader(p, b))
    && (forall h: nat :: IsHeader(p, h) ==> SingleBackwardsEdge(FlowGraph(p), h))
  }

  ghost predicate SingleBackwardsEdge(g: Graph, h: nat) {
    forall a: nat, c: nat :: g.Edge(a, h) && g.Edge(c, h) && a > h && c > h ==> a == c
  }

  predicate SameInnermost(inner: map<nat, nat>, a: nat, b: nat) {
    (a in inner <==> b in inner) && (a in inner ==> inner[a] == inner[b])
  }

  /** What the region search works from. */
  ghost predicate Facts(p: Program, doms: seq<seq<nat>>, postdoms: seq<seq<nat>>,
                        loopMap: map<nat, set<nat>>, inner: map<nat, nat>)
    requires WellFormed(p)
  {
    && Exact(LocalGraph(p), ENTRY, doms)
    && Exact(LocalGraph(p).Reverse(), Exits(p), postdoms)
    && ExactLoops(p, loopMap)
    && InnermostLoops(loopMap, inner)
  }

  predicate Candidate(doms: seq<seq<nat>>, postdoms: seq<seq<nat>>, inner: map<nat, nat>, a: nat, e: nat) {
    && e < |doms| && a < |postdoms|
    && e in postdoms[a] && a != e && a in doms[e] && SameInnermost(inner, a, e)
  }

  /** The tests of the search mean what the region definition says. */
  lemma CandidateIsRegion(p: Program, doms: seq<seq<nat>>, postdoms: seq<seq<nat>>,
                          loopMap: map<nat, set<nat>>, inner: map<nat, nat>, a: nat, e: nat)
    requires WellFormed(p) && Facts(p, doms, postdoms, loopMap, inner) && a < |p|
    ensures Candidate(doms, postdoms, inner, a, e) <==> LoopRegion(p, a, e)
  {
    var g := LocalGraph(p);
    PostDominanceIsReverseDominance(g, Exits(p), a);
    if Region(p, a, e) {
      RegionInRange(p, a, e);
      DominatorReachable(g, ENTRY, a, e);
      if SameInnermost(inner, a, e) {
        SameInnermostSameLoops(p, loopMap, inner, a, e);
      } else if LoopRegion(p, a, e) {
        SameLoopsSameInnermost(p, loopMap, inner, a, e);
      }
    }
  }

  lemma RegionInRange(p: Program, a: nat, e: nat)
    requires WellFormed(p) && Region(p, a, e)
    ensures e < |p|
  {
    var path: seq<nat> :| RootedPath(LocalGraph(p), ENTRY, e, path);
    PathInRange(LocalGraph(p), path, e);
  }

  lemma SameLoopsSameInnermost(p: Program, loopMap: map<nat, set<nat>>, inner: map<nat, nat>, a: nat, b: nat)
    requires WellFormed(p) && ExactLoops(p, loopMap)
    requires InnermostLoops(loopMap, inner)
    requires LoopsAround(p, a) == LoopsAround(p, b)
    ensures SameInnermost(inner, a, b)
  {
    LoopsAroundKnown(p, loopMap, a);
    LoopsAroundKnown(p, loopMap, b);
    assert forall k: nat :: k in loopMap ==> (a in loopMap[k] <==> k in LoopsAround(p, a));
  }

  /** A candidate with no more dominators than another dominates it. */
  lemma FewestDominatorsIsClosest(p: Program, doms: seq<seq<nat>>, a: nat, e: nat, c: nat)
    requires WellFormed(p) && Exact(LocalGraph(p), ENTRY, doms) && |doms| == |p|
    requires Region(p, a, e) && Region(p, a, c) && e < |p| && c < |p|
    requires |doms[e]| <= |doms[c]|
    ensures Dominates(LocalGraph(p), ENTRY, e, c)
  {
    CandidatesFormChain(p, a, e, c);
    if e != c && Dominates(LocalGraph(p), ENTRY, c, e) {
      FewerDominators(LocalGraph(p), ENTRY, doms, c, e);
    }
  }

  /** Of the post-dominators of `a` that qualify, the one with the fewest dominators. */
  method FindExit(ghost p: Program, doms: seq<seq<nat>>, postdoms: seq<seq<nat>>,
                  ghost loopMap: map<nat, set<nat>>, inner: map<nat, nat>, a: nat)
    returns (exit: Option<nat>)
    requires WellFormed(p) && Facts(p, doms, postdoms, loopMap, inner) && a < |p| && NontrivialEntry(p, a)
    ensures exit == RegionExit(p, a)
  {
    forall e | e in postdoms[a]
      ensures e < |doms|
    {
      PostDominatorInRange(p, postdoms, a, e);
    }
    exit := BestCandidate(doms, postdoms, inner, a);
    BestCandidateIsExit(p, doms, postdoms, loopMap, inner, a, exit);
  }

  method BestCandidate(doms: seq<seq<nat>>, postdoms: seq<seq<nat>>, inner: map<nat, nat>, a: nat)
    returns (exit: Option<nat>)
    requires a < |postdoms| && forall e :: e in postdoms[a] ==> e < |doms|
    ensures exit.Some? ==> Candidate(doms, postdoms, inner, a, exit.value)
    ensures forall c: nat :: Candidate(doms, postdoms, inner, a, c) ==>
      exit.Some? && |doms[exit.value]| <= |doms[c]|
  {
    exit := None;
    var exits := postdoms[a];
    for i := 0 to |exits|
      invariant exit.Some? ==> Candidate(doms, postdoms, inner, a, exit.value)
      invariant forall k :: 0 <= k < i && Candidate(doms, postdoms, inner, a, exits[k]) ==>
        exit.Some? && |doms[exit.value]| <= |doms[exits[k]]|
    {
      var e := exits[i];
      assert e in postdoms[a];
      if a != e && a in doms[e] && SameInnermost(inner, a, e) {
        if exit.None? || |doms[exit.value]| > |doms[e]| {
          exit := Some(e);
        }
      }
    }
  }

  lemma BestCandidateIsExit(p: Program, doms: seq<seq<nat>>, postdoms: seq<seq<nat>>,
                            loopMap: map<nat, set<nat>>, inner: map<nat, nat>, a: nat, exit: Option<nat>)
    requires WellFormed(p) && Facts(p, doms, postdoms, loopMap, inner) && a < |p| && NontrivialEntry(p, a)
    requires exit.Some? ==> Candidate(doms, postdoms, inner, a, exit.value)
    requires forall c: nat :: Candidate(doms, postdoms, inner, a, c) ==>
      exit.Some? && |doms[exit.value]| <= |doms[c]|
    ensures exit == RegionExit(p, a)
  {
    forall c: nat
      ensures LoopRegion(p, a, c) <==> Candidate(doms, postdoms, inner, a, c)
    {
      CandidateIsRegion(p, doms, postdoms, loopMap, inner, a, c);
    }
    RegionExitIsClosest(p, a, if exit.Some? then exit.value else 0);
    forall c: nat | LoopRegion(p, a, c)
      ensures exit.Some? && Dominates(LocalGraph(p), ENTRY, exit.value, c)
    {
      FewestDominatorsIsClosest(p, doms, a, exit.value, c);
    }
  }

  lemma PostDominatorInRange(p: Program, postdoms: seq<seq<nat>>, a: nat, e: nat)
    requires WellFormed(p) && a < |p|
    requires Exact(LocalGraph(p).Reverse(), Exits(p), postdoms) && |postdoms| == |p| && e in postdoms[a]
    ensures e < |p|
  {
    var r := LocalGraph(p).Reverse();
    assert Dominates(r, Exits(p), e, a);
    var path: seq<nat> :| RootedPath(r, Exits(p), a, path);
    PathInRange(r, path, e);
  }

  lemma RecordedStep(exits: seq<Option<nat>>, a: nat, regions: map<nat, nat>)
    requires a < |exits| && Recorded(exits, a, regions)
    ensures Recorded(exits, a + 1, if exits[a].Some? then regions[a := exits[a].value] else regions)
  {
  }

  /** Records the closest exit of every entry that has one. */
  method CollectRegions(p: Program, doms: seq<seq<nat>>, postdoms: seq<seq<nat>>,
                        ghost loopMap: map<nat, set<nat>>, inner: map<nat, nat>) returns (regions: map<nat, nat>)
    requires WellFormed(p) && Facts(p, doms, postdoms, loopMap, inner)
    ensures ExactRegions(p, regions)
  {
    regions := map[];
    ghost var exits := RegionExits(p);
    for a := 0 to |p|
      invariant Recorded(exits, a, regions)
    {
      var exit := None;
      if NontrivialEntry(p, a) {
        exit := FindExit(p, doms, postdoms, loopMap, inner, a);
      }
      assert exit == exits[a];
      RecordedStep(exits, a, regions);
      if exit.Some? {
        regions := regions[a := exit.value];
      }
    }
  }

  class SeseRegionAnalysis {
    const program: Program
    var regions: map<nat, nat>

    constructor (program: Program)
      requires WellFormed(program)
      ensures this.program == program && regions == map[]
    {
      this.program := program;
      regions := map[];
    }

    /** Finds all regions of a function that passes the tests on cycles, and none otherwise. */
    method Analyse()
      requires WellFormed(program) && regions == map[]
      modifies this
      ensures if CyclesAreSimple(program) then ExactRegions(program, regions) else regions == map[]
    {
      var loops := new NaturalLoopAnalysis(program);
      loops.Compute();
      var simple := CheckCycles(program, loops.loopMap);
      if !simple {
        return;
      }
      ComputeRegions(loops);
    }

    method ComputeRegions(loops: NaturalLoopAnalysis)
      requires WellFormed(program) && regions == map[]
      requires loops.program == program && loops.DominatorsKnown() && ExactLoops(program, loops.loopMap)
      modifies this
      ensures ExactRegions(program, regions)
    {
      var doms, loopMap := loops.dominators.dominators, loops.loopMap;
      var post := new CfgDominators(LocalGraph(program), true);
      assert post.Roots() == Exits(program);
      post.Fixedpoint();
      var postdoms := post.dominators;
      LoopsInRange(program, loopMap);
      var inner := ComputeInnermostLoops(loopMap, |program|);
      regions := CollectRegions(program, doms, postdoms, loopMap, inner);
    }
  }

  lemma LoopsInRange(p: Program, loopMap: map<nat, set<nat>>)
    requires WellFormed(p) && ExactLoops(p, loopMap)
    ensures forall h: nat :: h in loopMap ==> h < |p| && forall x :: x in loopMap[h] ==> x < |p|
  {
    var g := LocalGraph(p);
    forall h: nat, x | h in loopMap && x in loopMap[h]
      ensures h < |p| && x < |p|
    {
      var m: nat :| BackEdge(p, m, h) && InLoop(g, m, h, x);
      if x != h {
        var path: seq<nat> :| PathBetween(g, x, m, path) && h !in path;
        PathInRange(g, path, x);
      }
    }
    forall h: nat | h in loopMap
      ensures h < |p|
    {
      var m: nat :| BackEdge(p, m, h);
    }
  }

  ghost predicate BackwardsEdgesEnterHeader(p: Program, b: nat)
    requires WellFormed(p)
  {
    forall a: nat :: FlowGraph(p).Edge(a, b) && a > b ==> IsHeader(p, b)
  }

  method CheckHeader(p: Program, g: Graph, loopMap: map<nat, set<nat>>, b: nat) returns (ok: bool)
    requires WellFormed(p) && g == FlowGraph(p) && ExactLoops(p, loopMap) && b < |p|
    ensures ok <==> BackwardsEdgesEnterHeader(p, b)
  {
    var edges := g.into[b];
    assert forall a: nat :: g.Edge(a, b) <==> a in edges;
    for i := 0 to |edges|
      invariant forall k :: 0 <= k < i && edges[k] > b ==> IsHeader(p, b)
    {
      if edges[i] > b && b !in loopMap {
        assert edges[i] in edges;
        return false;
      }
    }
    ok := true;
  }

  /** Tests that backwards edges end at headers, one at each. */
  method CheckCycles(p: Program, loopMap: map<nat, set<nat>>) returns (simple: bool)
    requires WellFormed(p) && ExactLoops(p, loopMap)
    ensures simple <==> CyclesAreSimple(p)
  {
    var g := FlowGraph(p);
    for b := 0 to |p|
      invariant forall c: nat :: c < b ==> BackwardsEdgesEnterHeader(p, c)
    {
      var ok := CheckHeader(p, g, loopMap, b);
      if !ok {
        return false;
      }
    }
    assert forall b: nat :: b >= |p| ==> BackwardsEdgesEnterHeader(p, b);
    LoopsInRange(p, loopMap);
    simple := CheckSingleBackEdges(g, loopMap);
  }

  method CheckSingleBackEdges(g: Graph, loopMap: map<nat, set<nat>>) returns (ok: bool)
    requires g.Valid() && forall h: nat :: h in loopMap ==> h < |g.out|
    ensures ok <==> forall h: nat :: h in loopMap ==> SingleBackwardsEdge(g, h)
  {
    for h := 0 to |g.out|
      invariant forall k: nat :: k < h && k in loopMap ==> SingleBackwardsEdge(g, k)
    {
      if h in loopMap {
        var single := AtMostOneAbove(g, h);
        if !single {
          return false;
        }
      }
    }
    ok := true;
  }

  /** At most one of the distinct predecessors comes after the header. */
  method AtMostOneAbove(g: Graph, h: nat) returns (single: bool)
    requires g.Valid() && h < |g.out|
    ensures single <==> SingleBackwardsEdge(g, h)
  {
    var edges := g.into[h];
    assert forall a: nat :: g.Edge(a, h) <==> a in edges;
    var count, last := 0, 0;
    for i := 0 to |edges|
      invariant count <= 1
      invariant count == 0 ==> forall k :: 0 <= k < i ==> edges[k] <= h
      invariant count == 1 ==>
        last in edges[..i] && last > h && forall k :: 0 <= k < i && edges[k] > h ==> edges[k] == last
    {
      if edges[i] > h {
        count := count + 1;
        if count > 1 {
          assert last in edges && edges[i] in edges;
          return false;
        }
        last := edges[i];
      }
    }
    single := true;
  }
}
