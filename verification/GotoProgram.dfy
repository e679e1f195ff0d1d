/**
 Instructions of one goto function and the successor relations read off them.
 */
module GotoProgram {
  import opened Cfg
  import opened SortedSets

  /**
   The instruction kinds the control-flow analyses tell apart. `always` marks a goto whose
   condition is the constant true, `never` an assumption of the constant false.
   */
  datatype Instruction =
    | Goto(target: nat, always: bool)
    | Assume(never: bool)
    | StartThread(target: nat)
    | FunctionCall
    | EndThread
    | Throw
    | EndFunction
    | Plain

  type Program = seq<Instruction>

  /** Jumps stay inside the function, and END_FUNCTION is the last instruction and only that. */
  ghost predicate WellFormed(p: Program) {
    && p != []
    && (forall l :: 0 <= l < |p| ==> (p[l] == EndFunction <==> l == |p| - 1))
    && (forall l :: 0 <= l < |p| && p[l].Goto? ==> p[l].target < |p|)
    && (forall l :: 0 <= l < |p| && p[l].StartThread? ==> p[l].target < |p|)
  }

  function Next(p: Program, l: nat): seq<nat> {
    if l + 1 < |p| then [l + 1] else []
  }

  /** The successors the interpreter follows; the list may repeat a location. */
  function Successors(p: Program, l: nat): (s: seq<nat>)
    requires l < |p|
    ensures WellFormed(p) ==> forall t :: t in s ==> t < |p|
  {
    match p[l]
    case Goto(target, always) => [target] + if always then [] else Next(p, l)
    case StartThread(target) => [target] + Next(p, l)
    case Assume(never) => if never then [] else Next(p, l)
    case EndThread => []
    case Throw => []
    case _ => Next(p, l)
  }

  /** The successors in the procedure-local graph, where a started thread is not an edge. */
  function LocalSuccessors(p: Program, l: nat): (s: seq<nat>)
    requires l < |p|
    ensures WellFormed(p) ==> forall t :: t in s ==> t < |p|
  {
    match p[l]
    case Goto(target, always) => (if always then [] else Next(p, l)) + [target]
    case StartThread(_) => Next(p, l)
    case Assume(never) => if never then [] else Next(p, l)
    case EndThread => []
    case Throw => []
    case EndFunction => []
    case _ => Next(p, l)
  }

  function Distinct(s: seq<nat>): (r: seq<nat>)
    ensures Sorted(r) && forall x :: x in r <==> x in s
  {
    if s == [] then [] else
      assert s == [s[0]] + s[1..];
      Insert(Distinct(s[1..]), s[0])
  }

  function Predecessors(out: seq<seq<nat>>, b: nat, k: nat): (r: seq<nat>)
    requires k <= |out|
    ensures Sorted(r) && forall a: nat :: a in r <==> a < k && b in out[a]
  {
    if k == 0 then []
    else
      var r := Predecessors(out, b, k - 1);
      assert forall i :: 0 <= i < |r| ==> r[i] in r;
      if b in out[k - 1] then r + [k - 1] else r
  }

  /** The graph with the given successor lists, without parallel edges. */
  function GraphOf(succ: seq<seq<nat>>): (g: Graph)
    requires forall a, b :: 0 <= a < |succ| && b in succ[a] ==> b < |succ|
    ensures g.Valid() && |g.out| == |succ|
    ensures forall a: nat, b: nat :: g.Edge(a, b) <==> a < |succ| && b in succ[a]
  {
    var out := seq(|succ|, a requires 0 <= a < |succ| => Distinct(succ[a]));
    var into := seq(|succ|, b requires 0 <= b < |succ| => Predecessors(out, b, |succ|));
    Graph(out, into)
  }

  /** What the interpreter walks, and what `incoming_edges` inverts. */
  function FlowGraph(p: Program): (g: Graph)
    requires WellFormed(p)
    ensures g.Valid() && |g.out| == |p|
    ensures forall a: nat, b: nat :: g.Edge(a, b) <==> a < |p| && b in Successors(p, a)
  {
    GraphOf(seq(|p|, l requires 0 <= l < |p| => Successors(p, l)))
  }

  /** What the dominator analyses walk. */
  function LocalGraph(p: Program): (g: Graph)
    requires WellFormed(p)
    ensures g.Valid() && |g.out| == |p|
    ensures forall a: nat, b: nat :: g.Edge(a, b) <==> a < |p| && b in LocalSuccessors(p, a)
  {
    GraphOf(seq(|p|, l requires 0 <= l < |p| => LocalSuccessors(p, l)))
  }

  predicate StartsNoThread(p: Program) {
    forall l :: 0 <= l < |p| ==> !p[l].StartThread?
  }

  /** The two graphs differ only in the edges to started threads. */
  lemma GraphsAgree(p: Program)
    requires WellFormed(p)
    ensures forall a: nat, b: nat :: LocalGraph(p).Edge(a, b) ==> FlowGraph(p).Edge(a, b)
    ensures forall a: nat, b: nat :: FlowGraph(p).Edge(a, b) && !LocalGraph(p).Edge(a, b) ==> p[a].StartThread?
    ensures StartsNoThread(p) ==> LocalGraph(p) == FlowGraph(p)
  {
    forall l | 0 <= l < |p|
      ensures forall x :: x in LocalSuccessors(p, l) ==> x in Successors(p, l)
      ensures forall x :: x in Successors(p, l) && x !in LocalSuccessors(p, l) ==> p[l].StartThread?
    {
    }
    if StartsNoThread(p) {
      SameGraph(seq(|p|, l requires 0 <= l < |p| => LocalSuccessors(p, l)),
                seq(|p|, l requires 0 <= l < |p| => Successors(p, l)));
    }
  }

  lemma SameGraph(s: seq<seq<nat>>, t: seq<seq<nat>>)
    requires |s| == |t|
    requires forall a, b :: 0 <= a < |s| && b in s[a] ==> b < |s|
    requires forall a, b :: 0 <= a < |s| ==> (b in s[a] <==> b in t[a])
    ensures GraphOf(s) == GraphOf(t)
  {
    forall a | 0 <= a < |s|
      ensures Distinct(s[a]) == Distinct(t[a])
    {
      assert Elements(Distinct(s[a])) == Elements(Distinct(t[a]));
      SameElements(Distinct(s[a]), Distinct(t[a]));
    }
    assert GraphOf(s).out == GraphOf(t).out;
  }

  /** A backwards goto and its target. */
  predicate BackGoto(p: Program, m: nat, n: nat) {
    m < |p| && p[m].Goto? && p[m].target == n && n <= m
  }
}
