/** The plainest history: only where one is, one per location. */
module AhistoricalHistory {
  import opened AbstractInterpreter

  datatype Ahistorical = Ahistorical(current: nat)

  /** Merges with whatever is at the target, since all histories there are alike. */
  function Step(p: Ahistorical, to: nat, others: set<Ahistorical>): StepResult<Ahistorical> {
    if others == {} then New(Ahistorical(to)) else Merged(Ahistorical(to))
  }

  function History(): HistoryKind<Ahistorical> {
    HistoryKind(
      l => Ahistorical(l),
      (h: Ahistorical) => h.current,
      (a: Ahistorical, b: Ahistorical) => a.current < b.current,
      Step)
  }

  /** One state per location. */
  function ByLocation(): Ahistorical -> nat {
    (h: Ahistorical) => h.current
  }

  function Universe(n: nat): seq<Ahistorical> {
    seq(n, l requires 0 <= l < n => Ahistorical(l))
  }

  lemma IsLawful()
    ensures LawfulHistory(History()) && LawfulKey(History(), ByLocation())
  {
    var hist := History();
    forall p, to: nat, others | AllAt(hist, others, to)
      ensures LawfulStep(hist, p, to, others)
    {
      if others != {} {
        var o :| o in others;
        assert hist.location(o) == to;
        assert o == Ahistorical(to);
      }
    }
  }

  /** A new history is one per location, and arises only where there is none yet. */
  lemma IsFinite<S>(n: nat, rank: S -> nat, height: nat)
    ensures forall p, to: nat, others :: to < n ==>
      StepStaysFinite(History(), Finiteness(Universe(n), rank, height), p, to, others)
    ensures n > 0 ==> History().epoch(0) in Universe(n)
  {
    forall p, to: nat, others | to < n
      ensures StepStaysFinite(History(), Finiteness(Universe(n), rank, height), p, to, others)
    {
      assert Universe(n)[to] == Ahistorical(to);
    }
    if n > 0 {
      assert Universe(n)[0] == Ahistorical(0);
    }
  }

  /** With one state per location, the property holds of every stored state at its location. */
  lemma StoredHasProperty<S(!new), C(!new)>(
    an: Analysis<Ahistorical, nat, S, C>, st: Store<Ahistorical, nat, S>, l: nat)
    requires an.hist == History() && an.key == ByLocation()
    requires EngineInvariant(an, st, {}, {}) && l in st.states
    ensures an.sem.property(l, st.states[l])
  {
    var h :| Registered(st, an.hist, h) && an.key(h) == l;
    assert an.hist.location(h) == l;
  }

  /** What is covered at a location is described by its state. */
  lemma CoveredByState<S(!new), C(!new)>(
    an: Analysis<Ahistorical, nat, S, C>, st: Store<Ahistorical, nat, S>, run: seq<(nat, C)>, i: nat)
    requires an.hist == History() && an.key == ByLocation()
    requires EngineInvariant(an, st, {}, {}) && ConcreteRun(an.program, an.sem, run) && i < |run|
    ensures run[i].0 in st.states && an.sem.gamma(st.states[run[i].0], run[i].1)
  {
    QuiescentIsSound(an, st, run, i);
    var h :| h in TracesAt(st, run[i].0) && an.key(h) in st.states && an.sem.gamma(st.states[an.key(h)], run[i].1);
    assert an.hist.location(h) == run[i].0;
  }
}
