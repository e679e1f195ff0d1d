/**
 Histories that are the branch decisions taken since the start of a function, with a limit on
 how many there may be at one location.
 */
module LocalControlFlowHistory {
  import opened AbstractInterpreter
  import opened GotoProgram
  import opened Words

  /** An immutable list of decisions, the last one first; no decisions at all mean merged paths. */
  datatype Decisions = Null | Decision(branch: nat, taken: bool, previous: Decisions)

  datatype LocalHistory = LocalHistory(location: nat, decisions: Decisions)

  datatype Kind = Jump(target: nat) | Call | End | Other

  datatype Config = Config(kind: nat -> Kind, trackForward: bool, trackBackward: bool, limit: nat)

  // --- comparing -----------------------------------------------------------------------------

  /** Which pointers happen to be the same: only those to equal lists, and null is null. */
  ghost predicate Sharing(same: (Decisions, Decisions) -> bool) {
    same(Null, Null) && forall a, b :: same(a, b) ==> a == b
  }

  predicate DecisionLess(a: Decisions, b: Decisions, same: (Decisions, Decisions) -> bool)
    requires a.Decision? && b.Decision?
  {
    if a.branch < b.branch then true
    else if a.branch > b.branch then false
    else if !a.taken && b.taken then true
    else if a.taken && !b.taken then false
    else if same(a.previous, b.previous) then false
    else if a.previous.Null? then false
    else if b.previous.Null? then true
    else DecisionLess(a.previous, b.previous, same)
  }

  predicate DecisionEqual(a: Decisions, b: Decisions, same: (Decisions, Decisions) -> bool)
    requires a.Decision? && b.Decision?
  {
    a.branch == b.branch && a.taken == b.taken &&
    if same(a.previous, b.previous) then true
    else if a.previous.Decision? && b.previous.Decision? then DecisionEqual(a.previous, b.previous, same)
    else false
  }

  predicate Less(a: LocalHistory, b: LocalHistory, same: (Decisions, Decisions) -> bool) {
    if a.location < b.location then true
    else if a.location > b.location then false
    else if same(a.decisions, b.decisions) then false
    else if b.decisions.Null? then true
    else if a.decisions.Null? then false
    else DecisionLess(a.decisions, b.decisions, same)
  }

  predicate Equal(a: LocalHistory, b: LocalHistory, same: (Decisions, Decisions) -> bool) {
    a.location == b.location &&
    if same(a.decisions, b.decisions) then true
    else if a.decisions.Null? || b.decisions.Null? then false
    else DecisionEqual(a.decisions, b.decisions, same)
  }

  lemma {:induction false} DecisionsAreOrdered(
    a: Decisions, b: Decisions, same: (Decisions, Decisions) -> bool, same': (Decisions, Decisions) -> bool)
    requires Sharing(same) && Sharing(same') && a.Decision? && b.Decision?
    ensures DecisionEqual(a, b, same) <==> a == b
    ensures DecisionLess(a, b, same) ==> !DecisionLess(b, a, same')
    ensures !DecisionLess(a, b, same) && !DecisionLess(b, a, same') <==> a == b
    ensures DecisionLess(a, b, same) == DecisionLess(a, b, same')
  {
    if a.previous.Decision? && b.previous.Decision? {
      DecisionsAreOrdered(a.previous, b.previous, same, same');
    }
  }

  lemma {:induction false} DecisionsTransitive(
    a: Decisions, b: Decisions, c: Decisions, same: (Decisions, Decisions) -> bool)
    requires Sharing(same) && a.Decision? && b.Decision? && c.Decision?
    requires DecisionLess(a, b, same) && DecisionLess(b, c, same)
    ensures DecisionLess(a, c, same)
  {
    DecisionsAreOrdered(a, b, same, same);
    if a.previous.Decision? && b.previous.Decision? && c.previous.Decision?
      && DecisionLess(a.previous, b.previous, same) && DecisionLess(b.previous, c.previous, same) {
      DecisionsTransitive(a.previous, b.previous, c.previous, same);
      DecisionsAreOrdered(a.previous, c.previous, same, same);
    }
  }

  /** The order is strict and total, agrees with equality, and does not depend on what is shared. */
  lemma HistoriesAreOrdered(
    a: LocalHistory, b: LocalHistory, same: (Decisions, Decisions) -> bool, same': (Decisions, Decisions) -> bool)
    requires Sharing(same) && Sharing(same')
    ensures Equal(a, b, same) <==> a == b
    ensures Less(a, b, same) ==> !Less(b, a, same')
    ensures !Less(a, b, same) && !Less(b, a, same') <==> a == b
    ensures Less(a, b, same) == Less(a, b, same')
  {
    if a.decisions.Decision? && b.decisions.Decision? {
      DecisionsAreOrdered(a.decisions, b.decisions, same, same');
    }
  }

  lemma HistoriesTransitive(a: LocalHistory, b: LocalHistory, c: LocalHistory, same: (Decisions, Decisions) -> bool)
    requires Sharing(same) && Less(a, b, same) && Less(b, c, same)
    ensures Less(a, c, same)
  {
    HistoriesAreOrdered(a, b, same, same);
    if a.location == b.location == c.location
      && a.decisions.Decision? && b.decisions.Decision? && c.decisions.Decision? {
      DecisionsTransitive(a.decisions, b.decisions, c.decisions, same);
      DecisionsAreOrdered(a.decisions, c.decisions, same, same);
    }
  }

  /** Decisions as a word, the last one first. */
  function Choices(d: Decisions): seq<(nat, bool)> {
    match d
    case Null => []
    case Decision(branch, taken, previous) => [(branch, taken)] + Choices(previous)
  }

  lemma {:induction false} ChoicesTell(a: Decisions, b: Decisions)
    ensures Choices(a) == Choices(b) <==> a == b
  {
    if a.Decision? && b.Decision? {
      ChoicesTell(a.previous, b.previous);
      assert Choices(a)[1..] == Choices(a.previous) && Choices(b)[1..] == Choices(b.previous);
      assert Choices(a)[0] == (a.branch, a.taken) && Choices(b)[0] == (b.branch, b.taken);
    }
  }

  /** At the earlier branch, or at the same one and not taken. */
  predicate Earlier(a: (nat, bool), b: (nat, bool)) {
    a.0 < b.0 || (a.0 == b.0 && !a.1 && b.1)
  }

  lemma {:induction false} DecisionsAreWords(a: Decisions, b: Decisions, same: (Decisions, Decisions) -> bool)
    requires Sharing(same) && a.Decision? && b.Decision?
    ensures DecisionLess(a, b, same) <==> WordLess(Choices(a), Choices(b), Earlier, false)
    decreases a, 0
  {
    if a.branch != b.branch || a.taken != b.taken {
      OtherStart(Choices(a), Choices(b), Earlier, false);
    } else {
      SameStart((a.branch, a.taken), Choices(a.previous), Choices(b.previous), Earlier, false);
      PreviousOrdered(a.previous, b.previous, same);
      if a.previous.Decision? && b.previous.Decision? {
        DecisionsAreOrdered(a.previous, b.previous, same, same);
      }
    }
  }

  lemma {:induction false} PreviousOrdered(p: Decisions, q: Decisions, same: (Decisions, Decisions) -> bool)
    requires Sharing(same)
    ensures p.Decision? && (q.Null? || DecisionLess(p, q, same)) <==> WordLess(Choices(p), Choices(q), Earlier, false)
    decreases p, 1
  {
    if p.Decision? && q.Decision? {
      DecisionsAreWords(p, q, same);
    } else {
      EmptyWord(Choices(p), Choices(q), Earlier, false);
    }
  }

  /** Histories are ordered by location, then by decisions as words, of which one comes after what it begins. */
  lemma OrderIsLexicographic(a: LocalHistory, b: LocalHistory, same: (Decisions, Decisions) -> bool)
    requires Sharing(same)
    ensures Less(a, b, same) <==>
      || a.location < b.location
      || (a.location == b.location && WordLess(Choices(a.decisions), Choices(b.decisions), Earlier, false))
  {
    PreviousOrdered(a.decisions, b.decisions, same);
    if a.decisions.Decision? && b.decisions.Decision? {
      DecisionsAreOrdered(a.decisions, b.decisions, same, same);
    }
  }

  predicate SameValue(a: Decisions, b: Decisions) {
    a == b
  }

  /** The order as a relation on values, and its reverse. */
  predicate Below(a: LocalHistory, b: LocalHistory) {
    Less(a, b, SameValue)
  }

  predicate Above(a: LocalHistory, b: LocalHistory) {
    Below(b, a)
  }

  ghost predicate StrictTotal(before: (LocalHistory, LocalHistory) -> bool) {
    && (forall a, b :: before(a, b) ==> !before(b, a))
    && (forall a, b :: !before(a, b) && !before(b, a) ==> a == b)
    && (forall a, b, c :: before(a, b) && before(b, c) ==> before(a, c))
  }

  lemma OrderIsStrictTotal()
    ensures StrictTotal(Below) && StrictTotal(Above)
  {
    forall a, b
      ensures Below(a, b) ==> !Below(b, a)
      ensures !Below(a, b) && !Below(b, a) ==> a == b
    {
      HistoriesAreOrdered(a, b, SameValue, SameValue);
    }
    forall a, b, c | Below(a, b) && Below(b, c)
      ensures Below(a, c)
    {
      HistoriesTransitive(a, b, c, SameValue);
    }
  }

  predicate IsLast(s: set<LocalHistory>, g: LocalHistory, before: (LocalHistory, LocalHistory) -> bool) {
    g in s && forall o :: o in s ==> o == g || before(o, g)
  }

  lemma {:induction false} LastExists(s: set<LocalHistory>, before: (LocalHistory, LocalHistory) -> bool)
    requires StrictTotal(before) && s != {}
    ensures exists g :: IsLast(s, g, before)
    decreases |s|
  {
    var x :| x in s;
    if s == {x} {
      assert IsLast(s, x, before);
    } else {
      LastExists(s - {x}, before);
      var g :| IsLast(s - {x}, g, before);
      if before(g, x) {
        assert forall o :: o in s && o != x ==> o in s - {x};
        assert IsLast(s, x, before);
      } else {
        assert IsLast(s, g, before);
      }
    }
  }

  /** The last element in an order. */
  function LastIn(s: set<LocalHistory>, before: (LocalHistory, LocalHistory) -> bool): (g: LocalHistory)
    requires StrictTotal(before) && s != {}
    ensures IsLast(s, g, before)
  {
    LastExists(s, before);
    var g :| IsLast(s, g, before);
    g
  }

  function Greatest(s: set<LocalHistory>): (g: LocalHistory)
    requires s != {}
    ensures IsLast(s, g, Below)
  {
    OrderIsStrictTotal();
    LastIn(s, Below)
  }

  function Least(s: set<LocalHistory>): (g: LocalHistory)
    requires s != {}
    ensures IsLast(s, g, Above)
  {
    OrderIsStrictTotal();
    LastIn(s, Above)
  }

  /** Merged paths sort last. */
  lemma MergedIsGreatest(s: set<LocalHistory>, l: nat)
    requires LocalHistory(l, Null) in s && forall o :: o in s ==> o.location == l
    ensures Greatest(s) == LocalHistory(l, Null)
  {
    OrderIsStrictTotal();
    assert IsLast(s, LocalHistory(l, Null), Below);
  }

  // --- one step ----------------------------------------------------------------------------------

  predicate Tracks(c: Config, l: nat) {
    c.kind(l).Jump? && if c.kind(l).target <= l then c.trackBackward else c.trackForward
  }

  /** The history after an edge, were there no limit. */
  function Candidate(c: Config, h: LocalHistory, to: nat, caller: LocalHistory): LocalHistory {
    if Tracks(c, h.location) then
      var target := c.kind(h.location).target;
      LocalHistory(to, Decision(h.location, target == to && target != h.location + 1, h.decisions))
    else if c.kind(h.location).End? then LocalHistory(to, caller.decisions)
    else LocalHistory(to, h.decisions)
  }

  predicate EntersFunction(c: Config, l: nat, to: nat) {
    c.kind(l).Call? && to != l + 1
  }

  /**
   The step, given which histories are at the target. That there are never more than the limit
   is shown below, so that case needs no branch of its own.
   */
  function Step(c: Config, h: LocalHistory, to: nat, others: set<LocalHistory>, caller: LocalHistory)
    : StepResult<LocalHistory>
  {
    if EntersFunction(c, h.location, to) then
      if others == {} then New(LocalHistory(to, Null)) else Merged(Least(others))
    else
      var next := Candidate(c, h, to, caller);
      if next in others then Merged(next)
      else if c.limit == 0 || |others| < c.limit - 1 then New(next)
      else if |others| == c.limit - 1 then New(LocalHistory(to, Null))
      else Merged(Greatest(others))
  }

  /** `step` answers New for a history that is already there in just one case. */
  lemma NewMayBeOldExactly(c: Config, h: LocalHistory, to: nat, others: set<LocalHistory>, caller: LocalHistory)
    ensures
      var r := Step(c, h, to, others, caller);
      r.New? && r.history in others <==>
        && !EntersFunction(c, h.location, to) && Candidate(c, h, to, caller) !in others
        && |others| + 1 == c.limit && LocalHistory(to, Null) in others
  {
  }

  // --- histories are the decisions of paths ----------------------------------------------------------

  /** The decisions along a path within a function, the last one first: at which jump, and whether it was taken. */
  function PathChoices(c: Config, path: seq<nat>): seq<(nat, bool)>
    requires path != []
  {
    var n := |path| - 1;
    if n == 0 then [(path[0], true)]
    else
      var before := PathChoices(c, path[..n]);
      match c.kind(path[n - 1])
      case Jump(target) =>
        if (if target <= path[n - 1] then c.trackBackward else c.trackForward)
        then [(path[n - 1], path[n] == target && target != path[n - 1] + 1)] + before
        else before
      case _ => before
  }

  /** The history has the end of the path and its decisions. */
  predicate OfPath(c: Config, h: LocalHistory, path: seq<nat>) {
    path != [] && h.location == path[|path| - 1] && Choices(h.decisions) == PathChoices(c, path)
  }

  lemma CandidateIsOfPath(c: Config, h: LocalHistory, path: seq<nat>, to: nat, caller: LocalHistory)
    requires OfPath(c, h, path) && !c.kind(h.location).End?
    ensures OfPath(c, Candidate(c, h, to, caller), path + [to])
  {
    assert (path + [to])[..|path|] == path;
  }

  lemma OnePerPath(c: Config, g: LocalHistory, h: LocalHistory, path: seq<nat>)
    requires OfPath(c, g, path) && OfPath(c, h, path)
    ensures g == h
  {
    ChoicesTell(g.decisions, h.decisions);
  }

  /**
   A step goes on with the history of the path, without a limit or as long as there are two places left. Where
   that history is there already, it is the answer whatever the limit.
   */
  lemma StepFollowsPath(
    c: Config, h: LocalHistory, path: seq<nat>, to: nat, others: set<LocalHistory>, caller: LocalHistory)
    requires OfPath(c, h, path) && !c.kind(h.location).End? && !EntersFunction(c, h.location, to)
    ensures
      var r := Step(c, h, to, others, caller);
      c.limit == 0 || |others| + 1 < c.limit ==>
        !r.Blocked? && OfPath(c, r.history, path + [to]) && (r.New? <==> r.history !in others)
    ensures forall g :: g in others && OfPath(c, g, path + [to]) ==> Step(c, h, to, others, caller) == Merged(g)
  {
    var next := Candidate(c, h, to, caller);
    CandidateIsOfPath(c, h, path, to, caller);
    forall g | g in others && OfPath(c, g, path + [to])
      ensures Step(c, h, to, others, caller) == Merged(g)
    {
      OnePerPath(c, g, next, path + [to]);
    }
  }

  /** Returning from a call gives what not entering it would: the decisions of the caller come back. */
  lemma ReturnIsLikeSkipping(
    c: Config, h: LocalHistory, path: seq<nat>, caller: LocalHistory, to: nat, others: set<LocalHistory>,
    any: LocalHistory)
    requires OfPath(c, caller, path) && c.kind(caller.location).Call? && to == caller.location + 1
    requires c.kind(h.location).End?
    ensures Step(c, h, to, others, caller) == Step(c, caller, to, others, any)
    ensures
      var r := Step(c, h, to, others, caller);
      c.limit == 0 || |others| + 1 < c.limit ==>
        !r.Blocked? && OfPath(c, r.history, path + [to]) && (r.New? <==> r.history !in others)
  {
    StepFollowsPath(c, caller, path, to, others, any);
  }

  // --- the limit -----------------------------------------------------------------------------------

  type Traces = map<nat, set<LocalHistory>>

  function At(traces: Traces, l: nat): set<LocalHistory> {
    if l in traces then traces[l] else {}
  }

  /** A stored history is stepped along one of the edges, and the result is stored. */
  ghost predicate Stepped(c: Config, edges: set<(nat, nat)>, before: Traces, after: Traces) {
    exists h: LocalHistory, to: nat, caller ::
      h in At(before, h.location) && (h.location, to) in edges
      && after == before[to := At(before, to) + {Step(c, h, to, At(before, to), caller).history}]
  }

  function First(entry: nat): LocalHistory {
    LocalHistory(entry, Decision(entry, true, Null))
  }

  ghost predicate Run(c: Config, edges: set<(nat, nat)>, entry: nat, run: seq<Traces>) {
    && run != []
    && run[0] == map[entry := {First(entry)}]
    && forall i :: 0 < i < |run| ==> Stepped(c, edges, run[i - 1], run[i])
  }

  /** The edges stay in the function. */
  ghost predicate LocalEdges(c: Config, edges: set<(nat, nat)>) {
    forall from, to :: (from, to) in edges ==> !EntersFunction(c, from, to) && !c.kind(from).End?
  }

  ghost predicate PathAlong(edges: set<(nat, nat)>, entry: nat, path: seq<nat>) {
    && path != [] && path[0] == entry
    && forall i :: 0 < i < |path| ==> (path[i - 1], path[i]) in edges
  }

  /** No step adds anything. */
  ghost predicate Complete(c: Config, edges: set<(nat, nat)>, traces: Traces) {
    forall after :: Stepped(c, edges, traces, after) ==> after == traces
  }

  lemma PathGoesOn(
    c: Config, edges: set<(nat, nat)>, entry: nat, path: seq<nat>, h: LocalHistory, to: nat,
    others: set<LocalHistory>, caller: LocalHistory)
    requires c.limit == 0 && LocalEdges(c, edges) && PathAlong(edges, entry, path) && OfPath(c, h, path)
    requires (h.location, to) in edges
    ensures PathAlong(edges, entry, path + [to]) && OfPath(c, Step(c, h, to, others, caller).history, path + [to])
  {
    StepFollowsPath(c, h, path, to, others, caller);
  }

  /** Without a limit, what is stored is the history of a path. */
  lemma {:induction false} StoredIsOfPath(
    c: Config, edges: set<(nat, nat)>, entry: nat, run: seq<Traces>, i: nat, l: nat, g: LocalHistory)
    returns (path: seq<nat>)
    requires c.limit == 0 && LocalEdges(c, edges) && Run(c, edges, entry, run) && i < |run| && g in At(run[i], l)
    ensures PathAlong(edges, entry, path) && OfPath(c, g, path) && g.location == l
  {
    if i == 0 {
      path := [entry];
      assert Choices(g.decisions) == [(entry, true)] + Choices(Null);
    } else if g in At(run[i - 1], l) {
      path := StoredIsOfPath(c, edges, entry, run, i - 1, l, g);
    } else {
      assert Stepped(c, edges, run[i - 1], run[i]);
      var h: LocalHistory, to: nat, caller :|
        h in At(run[i - 1], h.location) && (h.location, to) in edges
        && run[i] == run[i - 1][to := At(run[i - 1], to) + {Step(c, h, to, At(run[i - 1], to), caller).history}];
      var before := StoredIsOfPath(c, edges, entry, run, i - 1, h.location, h);
      PathGoesOn(c, edges, entry, before, h, to, At(run[i - 1], to), caller);
      path := before + [to];
    }
  }

  /** Once no step adds anything, each path has its history stored where it ends. */
  lemma {:induction false} PathsAreStored(
    c: Config, edges: set<(nat, nat)>, entry: nat, run: seq<Traces>, path: seq<nat>) returns (g: LocalHistory)
    requires c.limit == 0 && LocalEdges(c, edges) && Run(c, edges, entry, run)
    requires Complete(c, edges, run[|run| - 1]) && PathAlong(edges, entry, path)
    ensures OfPath(c, g, path) && g in At(run[|run| - 1], path[|path| - 1])
    decreases |path|
  {
    var n, last := |path| - 1, run[|run| - 1];
    if n == 0 {
      g := First(entry);
      assert Choices(g.decisions) == [(entry, true)] + Choices(Null);
      FirstStays(c, edges, entry, run, |run| - 1);
    } else {
      var to := path[n];
      var h := PathsAreStored(c, edges, entry, run, path[..n]);
      StepFollowsPath(c, h, path[..n], to, At(last, to), h);
      assert path[..n] + [to] == path;
      g := Step(c, h, to, At(last, to), h).history;
      assert (path[n - 1], path[n]) in edges;
      assert Stepped(c, edges, last, last[to := At(last, to) + {g}]);
    }
  }

  lemma {:induction false} FirstStays(c: Config, edges: set<(nat, nat)>, entry: nat, run: seq<Traces>, i: nat)
    requires Run(c, edges, entry, run) && i < |run|
    ensures First(entry) in At(run[i], entry)
  {
    if i > 0 {
      assert Stepped(c, edges, run[i - 1], run[i]);
      FirstStays(c, edges, entry, run, i - 1);
    }
  }

  /** So paths that end at one location share a history there exactly if they have the same decisions. */
  lemma PathsShareExactly(
    c: Config, edges: set<(nat, nat)>, entry: nat, run: seq<Traces>, p: seq<nat>, q: seq<nat>)
    requires c.limit == 0 && LocalEdges(c, edges) && Run(c, edges, entry, run) && Complete(c, edges, run[|run| - 1])
    requires PathAlong(edges, entry, p) && PathAlong(edges, entry, q) && p[|p| - 1] == q[|q| - 1]
    ensures (exists g :: g in At(run[|run| - 1], p[|p| - 1]) && OfPath(c, g, p) && OfPath(c, g, q)) <==>
      PathChoices(c, p) == PathChoices(c, q)
  {
    var g := PathsAreStored(c, edges, entry, run, p);
    assert PathChoices(c, p) == PathChoices(c, q) ==> OfPath(c, g, q);
  }

  lemma StepStaysWithinCount(c: Config, h: LocalHistory, to: nat, others: set<LocalHistory>, caller: LocalHistory)
    requires c.limit >= 1 && |others| <= c.limit
    ensures !Step(c, h, to, others, caller).Blocked?
    ensures |others + {Step(c, h, to, others, caller).history}| <= c.limit
  {
    var r := Step(c, h, to, others, caller);
    if r.history in others {
      assert others + {r.history} == others;
    }
  }

  /** At most as many histories as allowed, and merged paths among them if there is no room left. */
  ghost predicate WithinLimit(c: Config, l: nat, hs: set<LocalHistory>) {
    && (forall h :: h in hs ==> h.location == l)
    && |hs| <= c.limit
    && (|hs| == c.limit ==> LocalHistory(l, Null) in hs)
  }

  lemma StepStaysWithinLimit(c: Config, h: LocalHistory, to: nat, others: set<LocalHistory>, caller: LocalHistory)
    requires c.limit >= 2 && WithinLimit(c, to, others)
    ensures !Step(c, h, to, others, caller).Blocked?
    ensures WithinLimit(c, to, others + {Step(c, h, to, others, caller).history})
    ensures |others| == c.limit && !EntersFunction(c, h.location, to) && Candidate(c, h, to, caller) !in others ==>
      Step(c, h, to, others, caller) == Merged(LocalHistory(to, Null))
  {
    StepStaysWithinCount(c, h, to, others, caller);
    if LocalHistory(to, Null) in others {
      MergedIsGreatest(others, to);
    }
    var r := Step(c, h, to, others, caller);
    if r.history in others {
      assert others + {r.history} == others;
    }
  }

  /**
   Whatever is stepped along whatever edges in whatever order, no location holds more histories than the
   limit, and one that is full has the merged paths as its greatest history.
   */
  lemma {:induction false} NeverOverLimit(
    c: Config, edges: set<(nat, nat)>, entry: nat, run: seq<Traces>, i: nat, l: nat)
    requires c.limit >= 2 && Run(c, edges, entry, run) && i < |run|
    ensures WithinLimit(c, l, At(run[i], l))
    ensures |At(run[i], l)| == c.limit ==> Greatest(At(run[i], l)) == LocalHistory(l, Null)
  {
    if i > 0 {
      assert Stepped(c, edges, run[i - 1], run[i]);
      var h: LocalHistory, to: nat, caller :|
        h in At(run[i - 1], h.location) && (h.location, to) in edges
        && run[i] == run[i - 1][to := At(run[i - 1], to) + {Step(c, h, to, At(run[i - 1], to), caller).history}];
      NeverOverLimit(c, edges, entry, run, i - 1, l);
      if l == to {
        StepStaysWithinLimit(c, h, to, At(run[i - 1], to), caller);
      }
    }
    if |At(run[i], l)| == c.limit {
      MergedIsGreatest(At(run[i], l), l);
    }
  }

  /** Where nothing but merged paths has been, a step keeps it so exactly in these cases. */
  lemma StaysMergedExactly(c: Config, h: LocalHistory, to: nat, others: set<LocalHistory>, caller: LocalHistory)
    requires others <= {LocalHistory(to, Null)}
    ensures Step(c, h, to, others, caller).history == LocalHistory(to, Null) <==>
      || EntersFunction(c, h.location, to) || Candidate(c, h, to, caller) == LocalHistory(to, Null)
      || c.limit == 1 || (c.limit == 2 && others != {})
  {
    if others != {} {
      assert others == {LocalHistory(to, Null)};
    }
  }

  /** The head of a function that only calls lead to holds nothing but merged paths, as calls take for granted. */
  lemma {:induction false} HeadHoldsMerged(
    c: Config, edges: set<(nat, nat)>, entry: nat, run: seq<Traces>, i: nat, head: nat)
    requires Run(c, edges, entry, run) && i < |run| && head != entry
    requires forall from: nat :: (from, head) in edges ==> EntersFunction(c, from, head)
    ensures At(run[i], head) <= {LocalHistory(head, Null)}
  {
    if i > 0 {
      assert Stepped(c, edges, run[i - 1], run[i]);
      var h: LocalHistory, to: nat, caller :|
        h in At(run[i - 1], h.location) && (h.location, to) in edges
        && run[i] == run[i - 1][to := At(run[i - 1], to) + {Step(c, h, to, At(run[i - 1], to), caller).history}];
      HeadHoldsMerged(c, edges, entry, run, i - 1, head);
      if head == to {
        StaysMergedExactly(c, h, to, At(run[i - 1], to), caller);
      }
    }
  }

  /** A loop at the head does not: a tracked jump to itself gives the head of a called function a second history. */
  lemma LoopAtHeadIsNotMerged(c: Config, head: nat, caller: LocalHistory)
    requires c.limit == 0 || c.limit >= 3
    requires Tracks(c, head) && c.kind(head).target == head
    ensures
      var merged := LocalHistory(head, Null);
      var r := Step(c, merged, head, {merged}, caller);
      r.New? && r.history == LocalHistory(head, Decision(head, true, Null)) && |{merged} + {r.history}| == 2
  {
    StaysMergedExactly(c, LocalHistory(head, Null), head, {LocalHistory(head, Null)}, caller);
  }

  /** Merged paths only, apart from what the entry starts with. */
  ghost predicate OneAt(entry: nat, l: nat, hs: set<LocalHistory>) {
    if l == entry then hs == {First(entry)} else hs <= {LocalHistory(l, Null)}
  }

  lemma OneStays(c: Config, entry: nat, h: LocalHistory, to: nat, others: set<LocalHistory>, caller: LocalHistory)
    requires c.limit == 1 && OneAt(entry, to, others)
    ensures OneAt(entry, to, others + {Step(c, h, to, others, caller).history})
  {
    if to == entry {
      assert Step(c, h, to, {First(entry)}, caller).history == First(entry);
    } else {
      StaysMergedExactly(c, h, to, others, caller);
    }
  }

  /** With a limit of one, every location but the entry holds merged paths only; the entry keeps what it starts with. */
  lemma {:induction false} LimitOneHoldsElsewhere(
    c: Config, edges: set<(nat, nat)>, entry: nat, run: seq<Traces>, i: nat, l: nat)
    requires c.limit == 1 && Run(c, edges, entry, run) && i < |run|
    ensures OneAt(entry, l, At(run[i], l))
  {
    if i > 0 {
      assert Stepped(c, edges, run[i - 1], run[i]);
      var h: LocalHistory, to: nat, caller :|
        h in At(run[i - 1], h.location) && (h.location, to) in edges
        && run[i] == run[i - 1][to := At(run[i - 1], to) + {Step(c, h, to, At(run[i - 1], to), caller).history}];
      LimitOneHoldsElsewhere(c, edges, entry, run, i - 1, l);
      if l == to {
        OneStays(c, entry, h, to, At(run[i - 1], to), caller);
      }
    }
  }

  /**
   With a limit of one, a new history that comes back to the entry finds it full without merged paths, which
   the step takes for granted. A tracked jump from the entry to itself is enough.
   */
  lemma LimitOneFailsAtEntry(c: Config, entry: nat, h: LocalHistory, caller: LocalHistory)
    requires c.limit == 1
    ensures !EntersFunction(c, h.location, entry) && Candidate(c, h, entry, caller) != First(entry) ==>
      var r := Step(c, h, entry, {First(entry)}, caller);
      r == Merged(First(entry)) && r.history.decisions != Null
    ensures Tracks(c, entry) && c.kind(entry).target == entry ==>
      !EntersFunction(c, entry, entry) && Candidate(c, First(entry), entry, caller) != First(entry)
  {
    assert Greatest({First(entry)}) == First(entry);
  }

  // --- in the abstract interpreter -------------------------------------------------------------------

  function KindOf(p: Program, l: nat): Kind {
    if l >= |p| then Other
    else
      match p[l]
      case Goto(target, _) => Jump(target)
      case FunctionCall => Call
      case EndFunction => End
      case _ => Other
  }

  /** What the history of a program is made with. */
  function ConfigOf(p: Program, trackForward: bool, trackBackward: bool, limit: nat): Config {
    Config((l: nat) => KindOf(p, l), trackForward, trackBackward, limit)
  }

  /** The history as the interpreter of one function uses it, where there are no callers. */
  function History(c: Config): HistoryKind<LocalHistory> {
    HistoryKind(
      First,
      (h: LocalHistory) => h.location,
      Below,
      (h: LocalHistory, to: nat, others: set<LocalHistory>) => Step(c, h, to, others, h))
  }

  /** One state per history. */
  function ByHistory(): LocalHistory -> LocalHistory {
    (h: LocalHistory) => h
  }

  function PathSensitive<S, C>(p: Program, c: Config, dom: DomainKind<S>, sem: Semantics<S, C>)
    : Analysis<LocalHistory, LocalHistory, S, C>
  {
    Analysis(p, History(c), ByHistory(), dom, sem)
  }

  /** Whatever it is tracking and whatever the limit, it is a history the interpreter is sound for. */
  lemma IsLawful(c: Config)
    ensures LawfulHistory(History(c)) && LawfulKey(History(c), ByHistory())
  {
    OrderIsStrictTotal();
    var hist := History(c);
    forall h, to: nat, others | AllAt(hist, others, to)
      ensures LawfulStep(hist, h, to, others)
    {
      assert forall o :: o in others ==> hist.location(o) == to;
      if others != {} {
        assert hist.location(Greatest(others)) == to && hist.location(Least(others)) == to;
      }
    }
  }

  /**
   A path-sensitive analysis: one state per history. When nothing is left to visit, each run of the
   program is covered at each step by the state of some history stored where the run is.
   */
  lemma PathSensitiveIsSound<S(!new), C(!new)>(
    p: Program, c: Config, dom: DomainKind<S>, sem: Semantics<S, C>, st: Store<LocalHistory, LocalHistory, S>,
    run: seq<(nat, C)>, i: nat)
    requires WellFormed(p) && SoundDomain(p, dom, sem) && InductiveProperty(p, dom, sem)
    requires EngineInvariant(PathSensitive(p, c, dom, sem), st, {}, {})
    requires ConcreteRun(p, sem, run) && i < |run|
    ensures Lawful(PathSensitive(p, c, dom, sem))
    ensures exists h: LocalHistory :: h.location == run[i].0 && h in st.states && sem.gamma(st.states[h], run[i].1)
  {
    IsLawful(c);
    var an := PathSensitive(p, c, dom, sem);
    QuiescentIsSound(an, st, run, i);
    var h :| h in TracesAt(st, run[i].0) && an.key(h) in st.states && an.sem.gamma(st.states[an.key(h)], run[i].1);
    assert an.hist.location(h) == run[i].0;
  }
}
