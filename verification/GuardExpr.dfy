/**
 Guards as expressions: conjunction, disjunction and the removal of what another guard already
 says, by editing operand lists in place.
 */
module GuardExpr {

  /** Boolean expressions; an atom is anything that is not one of the connectives. */
  datatype Expr =
    | Const(value: bool)
    | Not(op: Expr)
    | And(ops: seq<Expr>)
    | Or(ops: seq<Expr>)
    | Implies(lhs: Expr, rhs: Expr)
    | Atom(name: string)

  const TRUE := Const(true)
  const FALSE := Const(false)

  predicate Eval(e: Expr, v: string -> bool) {
    match e
    case Const(value) => value
    case Not(op) => !Eval(op, v)
    case And(ops) => forall i :: 0 <= i < |ops| ==> Eval(ops[i], v)
    case Or(ops) => exists i :: 0 <= i < |ops| && Eval(ops[i], v)
    case Implies(lhs, rhs) => Eval(lhs, v) ==> Eval(rhs, v)
    case Atom(name) => v(name)
  }

  /** All operands hold. */
  predicate All(ops: seq<Expr>, v: string -> bool) {
    forall i :: 0 <= i < |ops| ==> Eval(ops[i], v)
  }

  lemma AllSplit(a: seq<Expr>, b: seq<Expr>, v: string -> bool)
    ensures All(a + b, v) <==> All(a, v) && All(b, v)
  {
    if All(a + b, v) {
      assert forall i :: 0 <= i < |a| ==> (a + b)[i] == a[i];
      assert forall i :: 0 <= i < |b| ==> (a + b)[|a| + i] == b[i];
    }
  }

  function Negate(e: Expr): (r: Expr)
    ensures forall v :: Eval(r, v) <==> !Eval(e, v)
  {
    match e
    case Not(op) => op
    case Const(value) => Const(!value)
    case _ => Not(e)
  }

  function Conjunction(ops: seq<Expr>): (r: Expr)
    ensures forall v :: Eval(r, v) <==> All(ops, v)
  {
    if ops == [] then TRUE else if |ops| == 1 then ops[0] else And(ops)
  }

  // --- what the operations compute -------------------------------------------------------------

  /** The guard after `add`. */
  function Added(g: Expr, e: Expr): Expr {
    if g == FALSE || e == TRUE then g
    else if g == TRUE || e == FALSE then e
    else And((if g.And? then g.ops else [g]) + (if e.And? then e.ops else [e]))
  }

  lemma AddIsConjunction(g: Expr, e: Expr, v: string -> bool)
    ensures Eval(Added(g, e), v) <==> Eval(g, v) && Eval(e, v)
  {
    var a, b := if g.And? then g.ops else [g], if e.And? then e.ops else [e];
    AllSplit(a, b, v);
    assert All(a, v) <==> Eval(g, v) by {
      assert !g.And? ==> a[0] == g;
    }
    assert All(b, v) <==> Eval(e, v) by {
      assert !e.And? ==> b[0] == e;
    }
  }

  /** How many leading operands two lists have in common. */
  function CommonPrefix(a: seq<Expr>, b: seq<Expr>): (n: nat)
    ensures n <= |a| && n <= |b| && a[..n] == b[..n]
    ensures n < |a| && n < |b| ==> a[n] != b[n]
  {
    if a == [] || b == [] || a[0] != b[0] then 0
    else
      var n := CommonPrefix(a[1..], b[1..]);
      assert a[..n + 1] == [a[0]] + a[1..][..n] && b[..n + 1] == [b[0]] + b[1..][..n];
      n + 1
  }

  /** The guard after `-=`; a conjunction loses nothing to a guard that is not one. */
  function Reduced(g1: Expr, g2: Expr): Expr {
    if !g1.And? then
      if !g2.And? then (if g1 == g2 then TRUE else g1)
      else if g1 in g2.ops then TRUE else g1
    else if !g2.And? then g1
    else Conjunction(g1.ops[CommonPrefix(g1.ops, g2.ops)..])
  }

  /** What is left, with the other guard, still gives the first guard, and is no stronger than it. */
  lemma ReducedIsBetween(g1: Expr, g2: Expr, v: string -> bool)
    ensures Eval(Reduced(g1, g2), v) && Eval(g2, v) ==> Eval(g1, v)
    ensures Eval(g1, v) ==> Eval(Reduced(g1, g2), v)
  {
    if g1.And? && g2.And? {
      var n := CommonPrefix(g1.ops, g2.ops);
      assert g1.ops == g1.ops[..n] + g1.ops[n..] && g2.ops == g2.ops[..n] + g2.ops[n..];
      AllSplit(g1.ops[..n], g1.ops[n..], v);
      AllSplit(g2.ops[..n], g2.ops[n..], v);
      assert Eval(g1, v) <==> All(g1.ops, v);
      assert Eval(g2, v) <==> All(g2.ops, v);
    }
  }

  lemma {:induction false} PrefixOf(pre: seq<Expr>, r1: seq<Expr>, r2: seq<Expr>)
    requires r1 == [] || r2 == [] || r1[0] != r2[0]
    ensures CommonPrefix(pre + r1, pre + r2) == |pre|
  {
    if pre == [] {
      assert pre + r1 == r1 && pre + r2 == r2;
    } else {
      assert (pre + r1)[1..] == pre[1..] + r1 && (pre + r2)[1..] == pre[1..] + r2;
      PrefixOf(pre[1..], r1, r2);
    }
  }

  /** Of two conjunctions, what they begin with in common goes, and all else stays. */
  lemma ReduceCancels(pre: seq<Expr>, r1: seq<Expr>, r2: seq<Expr>)
    requires r1 == [] || r2 == [] || r1[0] != r2[0]
    ensures Reduced(And(pre + r1), And(pre + r2)) == Conjunction(r1)
  {
    PrefixOf(pre, r1, r2);
    assert (pre + r1)[|pre|..] == r1;
  }

  /** A single condition goes if the other guard is it or has it as an operand, and stays otherwise. */
  lemma SingleReduced(g1: Expr, g2: Expr)
    requires !g1.And?
    ensures Reduced(g1, g2) == TRUE <==> g1 == TRUE || g1 == g2 || (g2.And? && g1 in g2.ops)
    ensures Reduced(g1, g2) != TRUE ==> Reduced(g1, g2) == g1
  {
  }

  /** What a guard is the conjunction of. */
  function Operands(g: Expr): seq<Expr> {
    if g == TRUE then [] else if g.And? then g.ops else [g]
  }

  /** Adding puts the operands of both in a row, unless one of them is false. */
  lemma AddAppends(g: Expr, e: Expr)
    ensures g == FALSE || e == FALSE ==> Added(g, e) == FALSE
    ensures g != FALSE && e != FALSE ==> Operands(Added(g, e)) == Operands(g) + Operands(e)
  {
    assert Operands(TRUE) == [];
  }

  /** What was added to a conjunction is left when that is taken away again; a single condition is not taken away. */
  lemma AddedIsTakenBack(g: Expr, e: Expr)
    requires g != FALSE && e != FALSE && g != TRUE && e != TRUE
    ensures Reduced(Added(g, e), g) == if g.And? then Conjunction(Operands(e)) else Added(g, e)
  {
    if g.And? {
      assert g.ops + [] == g.ops;
      ReduceCancels(g.ops, Operands(e), []);
    }
  }

  datatype Parts = Parts(common: seq<Expr>, first: seq<Expr>, second: seq<Expr>)

  /** Two operand lists walked in step: what both have, and what only one of them has. */
  function Split(a: seq<Expr>, b: seq<Expr>, less: (Expr, Expr) -> bool): Parts
    decreases |a| + |b|
  {
    if b == [] then Parts([], a, [])
    else if a != [] && less(a[0], b[0]) then
      var p := Split(a[1..], b, less);
      p.(first := [a[0]] + p.first)
    else if a != [] && a[0] == b[0] then
      var p := Split(a[1..], b[1..], less);
      p.(common := [a[0]] + p.common)
    else
      var p := Split(a, b[1..], less);
      p.(second := [b[0]] + p.second)
  }

  /** Whatever the order, and whether or not the lists are sorted by it. */
  lemma {:induction false} SplitMeans(a: seq<Expr>, b: seq<Expr>, less: (Expr, Expr) -> bool, v: string -> bool)
    ensures All(a, v) <==> All(Split(a, b, less).common, v) && All(Split(a, b, less).first, v)
    ensures All(b, v) <==> All(Split(a, b, less).common, v) && All(Split(a, b, less).second, v)
    decreases |a| + |b|
  {
    if b != [] {
      var b' := b[1..];
      assert b == [b[0]] + b';
      AllSplit([b[0]], b', v);
      if a != [] && (less(a[0], b[0]) || a[0] == b[0]) {
        var a' := a[1..];
        assert a == [a[0]] + a';
        AllSplit([a[0]], a', v);
        if less(a[0], b[0]) {
          SplitMeans(a', b, less, v);
          AllSplit([a[0]], Split(a', b, less).first, v);
        } else {
          SplitMeans(a', b', less, v);
          AllSplit([a[0]], Split(a', b', less).common, v);
        }
      } else {
        SplitMeans(a, b', less, v);
        AllSplit([b[0]], Split(a, b', less).second, v);
      }
    }
  }

  ghost predicate StrictTotal(less: (Expr, Expr) -> bool) {
    && (forall a, b :: less(a, b) ==> !less(b, a))
    && (forall a, b :: !less(a, b) && !less(b, a) ==> a == b)
    && (forall a, b, c :: less(a, b) && less(b, c) ==> less(a, c))
  }

  ghost predicate SortedBy(s: seq<Expr>, less: (Expr, Expr) -> bool) {
    forall i, j :: 0 <= i < j < |s| ==> less(s[i], s[j])
  }

  ghost predicate SplitsAt(a: seq<Expr>, b: seq<Expr>, p: Parts, e: Expr) {
    && (e in p.common <==> e in a && e in b)
    && (e in p.first <==> e in a && e !in b)
    && (e in p.second <==> e in b && e !in a)
  }

  /** What is in front of a sorted list is not in it. */
  lemma NotBehind(s: seq<Expr>, less: (Expr, Expr) -> bool, e: Expr)
    requires StrictTotal(less) && SortedBy(s, less) && s != []
    ensures s == [s[0]] + s[1..] && SortedBy(s[1..], less)
    ensures e == s[0] || less(e, s[0]) ==> e !in s[1..]
    ensures less(e, s[0]) ==> e !in s
  {
    if e == s[0] || less(e, s[0]) {
      forall i | 0 < i < |s|
        ensures s[i] != e
      {
        assert less(s[0], s[i]);
      }
    }
  }

  /** Sorted lists are split into just the operands that are in both, and those in one of them only. */
  lemma {:induction false} SplitExactly(a: seq<Expr>, b: seq<Expr>, less: (Expr, Expr) -> bool, e: Expr)
    requires StrictTotal(less) && SortedBy(a, less) && SortedBy(b, less)
    ensures SplitsAt(a, b, Split(a, b, less), e)
    decreases |a| + |b|
  {
    if b != [] {
      NotBehind(b, less, e);
      if a == [] {
        SplitExactly(a, b[1..], less, e);
      } else {
        NotBehind(a, less, e);
        NotBehind(a, less, b[0]);
        NotBehind(b, less, a[0]);
        if less(a[0], b[0]) {
          SplitExactly(a[1..], b, less, e);
        } else if a[0] == b[0] {
          SplitExactly(a[1..], b[1..], less, e);
        } else {
          SplitExactly(a, b[1..], less, e);
        }
      }
    }
  }

  /** Common operands, and the disjunction of the rest unless that is plainly true. */
  function Rejoined(p: Parts): Expr {
    if p.second == [] then And(p.common)
    else
      var rest1, rest2 := Conjunction(p.first), Conjunction(p.second);
      if Negate(rest2) == rest1 || rest1 == TRUE || rest2 == TRUE then Conjunction(p.common)
      else Added(Conjunction(p.common), Or([rest1, rest2]))
  }

  /** The guard after `|=`. */
  function Joined(g1: Expr, g2: Expr, less: (Expr, Expr) -> bool): Expr {
    if g2 == FALSE || g1 == TRUE then g1
    else if g1 == FALSE || g2 == TRUE then g2
    else if !g1.And? || !g2.And? then
      if Negate(g2) == g1 then TRUE else Or([g1, g2])
    else Rejoined(Split(g1.ops, g2.ops, less))
  }

  lemma OrOfTwo(a: Expr, b: Expr, v: string -> bool)
    ensures Eval(Or([a, b]), v) <==> Eval(a, v) || Eval(b, v)
  {
    var ops := [a, b];
    if Eval(a, v) {
      assert Eval(ops[0], v);
    }
    if Eval(b, v) {
      assert Eval(ops[1], v);
    }
  }

  lemma RejoinedMeans(p: Parts, v: string -> bool)
    ensures Eval(Rejoined(p), v) <==> All(p.common, v) && (All(p.first, v) || All(p.second, v))
  {
    var rest1, rest2 := Conjunction(p.first), Conjunction(p.second);
    if p.second != [] {
      OrOfTwo(rest1, rest2, v);
      AddIsConjunction(Conjunction(p.common), Or([rest1, rest2]), v);
      assert Eval(Negate(rest2), v) <==> !Eval(rest2, v);
    } else {
      assert Eval(Rejoined(p), v) <==> All(p.common, v);
    }
  }

  lemma JoinIsDisjunction(g1: Expr, g2: Expr, less: (Expr, Expr) -> bool, v: string -> bool)
    ensures Eval(Joined(g1, g2, less), v) <==> Eval(g1, v) || Eval(g2, v)
  {
    if g1.And? && g2.And? {
      SplitMeans(g1.ops, g2.ops, less, v);
      RejoinedMeans(Split(g1.ops, g2.ops, less), v);
      assert Eval(g1, v) <==> All(g1.ops, v);
      assert Eval(g2, v) <==> All(g2.ops, v);
    } else {
      OrOfTwo(g1, g2, v);
      assert Eval(Negate(g2), v) <==> !Eval(g2, v);
    }
  }

  /** False adds nothing to a disjunction, true takes it over, and so do a condition and its negation. */
  lemma JoinUnits(g: Expr, g2: Expr, less: (Expr, Expr) -> bool)
    ensures Joined(g, FALSE, less) == Joined(FALSE, g, less) == g
    ensures Joined(g, TRUE, less) == Joined(TRUE, g, less) == TRUE
    ensures Negate(g2) == g && g != FALSE && !(g.And? && g2.And?) ==> Joined(g, g2, less) == TRUE
  {
  }

  /** What conjunctions with sorted operands have in common stays outside the disjunction. */
  lemma JoinFactorsOut(a: seq<Expr>, b: seq<Expr>, less: (Expr, Expr) -> bool, e: Expr)
    requires StrictTotal(less) && SortedBy(a, less) && SortedBy(b, less)
    requires e in a && e in b && !e.And? && e != TRUE
    ensures e in Operands(Joined(And(a), And(b), less))
  {
    SplitExactly(a, b, less, e);
    var p := Split(a, b, less);
    var c, d := Conjunction(p.common), Or([Conjunction(p.first), Conjunction(p.second)]);
    assert |p.common| == 1 ==> p.common == [e];
    assert e in Operands(c);
    AddAppends(c, d);
    assert c == FALSE ==> Added(c, d) == c;
  }

  lemma {:induction false} SplitBehind(pre: seq<Expr>, r1: seq<Expr>, r2: seq<Expr>, less: (Expr, Expr) -> bool)
    requires forall x :: x in pre ==> !less(x, x)
    ensures
      var p := Split(r1, r2, less);
      Split(pre + r1, pre + r2, less) == p.(common := pre + p.common)
  {
    if pre == [] {
      assert pre + r1 == r1 && pre + r2 == r2 && [] + Split(r1, r2, less).common == Split(r1, r2, less).common;
    } else {
      assert (pre + r1)[1..] == pre[1..] + r1 && (pre + r2)[1..] == pre[1..] + r2;
      SplitBehind(pre[1..], r1, r2, less);
      var p := Split(r1, r2, less);
      assert [pre[0]] + (pre[1..] + p.common) == pre + p.common;
    }
  }

  /** Joined again, both sides of a branch give what was known before it. */
  lemma BranchJoinsAgain(pre: seq<Expr>, e: Expr, other: Expr, less: (Expr, Expr) -> bool)
    requires forall x :: x in pre ==> !less(x, x)
    requires Negate(other) == e
    ensures Joined(And(pre + [e]), And(pre + [other]), less) == Conjunction(pre)
  {
    SplitBehind(pre, [e], [other], less);
    assert Eval(e, _ => true) <==> !Eval(other, _ => true);
    assert Split([e], [other], less) == Parts([], [e], [other]) by {
      assert [e][1..] == [] && [other][1..] == [];
      assert Split([], [other], less) == Parts([], [], [other]);
      assert Split([e], [], less) == Parts([], [e], []);
    }
    assert pre + [] == pre;
  }

  /** The test that is to say when `|=` does more than to put an `or` around both guards. */
  predicate MaySimplify(g1: Expr, g2: Expr) {
    g1.Const? || g2.Const? || (g1.And? && g2.And?) || g2 == Negate(g1)
  }

  /** It misses exactly one case, that the second guard is the negation of a negation. */
  lemma MaySimplifyMisses(g1: Expr, g2: Expr, less: (Expr, Expr) -> bool)
    requires !MaySimplify(g1, g2)
    ensures Joined(g1, g2, less) == (if g1.Not? && g2 == Not(g1) then TRUE else Or([g1, g2]))
  {
  }

  /** Of guards that are not both conjunctions, it foretells just what is simplified, but for one case again. */
  lemma MaySimplifyForetells(g1: Expr, g2: Expr, less: (Expr, Expr) -> bool)
    requires MaySimplify(g1, g2) && !(g1.And? && g2.And?)
    ensures Joined(g1, g2, less) != Or([g1, g2]) <==> !(g1 == Not(g2) && g2.Not?)
  {
    var ops := [g1, g2];
    assert ops[0] == g1 && ops[1] == g2;
    assert g1 != Or(ops) && g2 != Or(ops);
  }

  /** `guard => e`, simplified when one of them is constant. */
  function Guarded(g: Expr, e: Expr): (r: Expr)
    ensures forall v :: Eval(r, v) <==> (Eval(g, v) ==> Eval(e, v))
  {
    if g == TRUE then e else if e == FALSE then Negate(g) else Implies(g, e)
  }

  /** There is an implication only between guards that are not constant; otherwise the other side, or its negation. */
  lemma GuardedIsSimple(g: Expr, e: Expr)
    ensures Guarded(g, e) == Implies(g, e) <==> g != TRUE && e != FALSE
    ensures Guarded(TRUE, e) == e && (g != TRUE ==> Guarded(g, FALSE) == Negate(g))
  {
    assert !(e < e) && (e.Implies? ==> e.rhs < e);
    assert !(g < g) && (g.Not? && g.op.Implies? ==> g.op.lhs < g.op < g);
  }

  // --- the operations --------------------------------------------------------------------------

  class Guard {
    var expr: Expr

    constructor (e: Expr)
      ensures expr == e
    {
      expr := e;
    }

    method Add(e: Expr)
      modifies this
      ensures expr == Added(old(expr), e)
    {
      if expr == FALSE || e == TRUE {
        return;
      } else if expr == TRUE || e == FALSE {
        expr := e;
        return;
      } else if !expr.And? {
        expr := And([expr]);
      }
      if e.And? {
        expr := And(expr.ops + e.ops);
      } else {
        expr := And(expr.ops + [e]);
      }
    }

    /** operator-= */
    method Reduce(g2: Guard)
      modifies this
      ensures expr == Reduced(old(expr), old(g2.expr))
    {
      if !expr.And? {
        if !g2.expr.And? {
          if expr == g2.expr {
            expr := TRUE;
          }
        } else {
          for i := 0 to |g2.expr.ops|
            invariant expr == old(expr) && g2.expr == old(g2.expr)
            invariant expr !in g2.expr.ops[..i]
          {
            if expr == g2.expr.ops[i] {
              expr := TRUE;
              return;
            }
          }
          assert g2.expr.ops[..|g2.expr.ops|] == g2.expr.ops;
        }
        return;
      }
      if !g2.expr.And? {
        var op1 := EraseWhereEqual(expr, g2.expr);
        expr := And(op1);
        return;
      }
      var op2 := g2.expr.ops;
      var op1 := EraseCommonPrefix(expr.ops, op2);
      expr := Conjunction(op1);
    }

    /** operator|= */
    method Join(g2: Guard, less: (Expr, Expr) -> bool)
      modifies this
      ensures expr == Joined(old(expr), old(g2.expr), less)
    {
      if g2.expr == FALSE || expr == TRUE {
        return;
      }
      if expr == FALSE || g2.expr == TRUE {
        expr := g2.expr;
        return;
      }
      if !expr.And? || !g2.expr.And? {
        var tmp := Negate(g2.expr);
        if tmp == expr {
          expr := TRUE;
        } else {
          expr := Or([expr, g2.expr]);
        }
        return;
      }
      var op1, nOp1, nOp2 := TakeCommon(expr.ops, g2.expr.ops, less);
      expr := And(op1);
      if nOp2 == [] {
        return;
      }
      var andExpr1, andExpr2 := Conjunction(nOp1), Conjunction(nOp2);
      expr := Conjunction(op1);
      var tmp := Negate(andExpr2);
      if tmp != andExpr1 {
        if andExpr1 == TRUE || andExpr2 == TRUE {
        } else {
          Add(Or([andExpr1, andExpr2]));
        }
      }
    }
  }

  /** Looks for an operand to erase, but compares the whole conjunction instead of the operand. */
  method EraseWhereEqual(whole: Expr, other: Expr) returns (op1: seq<Expr>)
    requires whole.And?
    ensures op1 == if whole == other && whole.ops != [] then whole.ops[1..] else whole.ops
  {
    op1 := whole.ops;
    for i := 0 to |op1|
      invariant op1 == whole.ops && (i > 0 ==> whole != other)
    {
      if whole == other {
        op1 := op1[..i] + op1[i + 1..];
        break;
      }
    }
  }

  /** Erases operands from the front as long as both lists agree. */
  method EraseCommonPrefix(op1: seq<Expr>, op2: seq<Expr>) returns (r: seq<Expr>)
    ensures r == op1[CommonPrefix(op1, op2)..]
  {
    r := op1;
    var i := 0;
    while i < |op2|
      invariant i <= |op2| && i <= |op1| && r == op1[i..]
      invariant CommonPrefix(op1, op2) == i + CommonPrefix(op1[i..], op2[i..])
    {
      assert op2[i..][1..] == op2[i + 1..];
      if r != [] && r[0] == op2[i] {
        assert op1[i..][1..] == op1[i + 1..];
        r := r[1..];
        i := i + 1;
      } else {
        break;
      }
    }
  }

  /** Leaves in the first list what both have, moving the rest of either list out. */
  method TakeCommon(a: seq<Expr>, b: seq<Expr>, less: (Expr, Expr) -> bool)
    returns (op1: seq<Expr>, nOp1: seq<Expr>, nOp2: seq<Expr>)
    ensures Parts(op1, nOp1, nOp2) == Split(a, b, less)
  {
    op1, nOp1, nOp2 := a, [], [];
    var it1: nat := 0;
    for it2 := 0 to |b|
      invariant it1 <= |op1|
      invariant Prepended(Parts(op1[..it1], nOp1, nOp2), Split(op1[it1..], b[it2..], less)) == Split(a, b, less)
    {
      while it1 < |op1| && less(op1[it1], b[it2])
        invariant it1 <= |op1|
        invariant Prepended(Parts(op1[..it1], nOp1, nOp2), Split(op1[it1..], b[it2..], less)) == Split(a, b, less)
        decreases |op1|
      {
        SplitStep(op1[..it1], nOp1, nOp2, op1[it1..], b[it2..], less);
        nOp1 := nOp1 + [op1[it1]];
        var rest := op1[it1..][1..];
        op1 := op1[..it1] + op1[it1 + 1..];
        assert op1[it1..] == rest;
      }
      SplitStep(op1[..it1], nOp1, nOp2, op1[it1..], b[it2..], less);
      assert b[it2..][1..] == b[it2 + 1..];
      if it1 < |op1| && op1[it1] == b[it2] {
        assert op1[..it1 + 1] == op1[..it1] + [op1[it1]] && op1[it1..][1..] == op1[it1 + 1..];
        it1 := it1 + 1;
      } else {
        nOp2 := nOp2 + [b[it2]];
      }
    }
    assert b[|b|..] == [];
    nOp1 := nOp1 + op1[it1..];
    op1 := op1[..it1];
  }

  function Prepended(p: Parts, q: Parts): Parts {
    Parts(p.common + q.common, p.first + q.first, p.second + q.second)
  }

  /** One turn of the walk moves one operand to where it belongs. */
  lemma SplitStep(
    common: seq<Expr>, first: seq<Expr>, second: seq<Expr>, a: seq<Expr>, b: seq<Expr>, less: (Expr, Expr) -> bool)
    requires b != []
    ensures
      Prepended(Parts(common, first, second), Split(a, b, less)) ==
      if a != [] && less(a[0], b[0]) then
        Prepended(Parts(common, first + [a[0]], second), Split(a[1..], b, less))
      else if a != [] && a[0] == b[0] then
        Prepended(Parts(common + [a[0]], first, second), Split(a[1..], b[1..], less))
      else
        Prepended(Parts(common, first, second + [b[0]]), Split(a, b[1..], less))
  {
  }

  // --- guards along paths ------------------------------------------------------------------------

  /** How a guard comes about: at the start, after a branch on a condition, or where paths meet. */
  datatype Flow = Start | Branch(before: Flow, condition: Expr) | Meet(left: Flow, right: Flow)

  function GuardOf(f: Flow, less: (Expr, Expr) -> bool): Expr {
    match f
    case Start => TRUE
    case Branch(before, condition) => Added(GuardOf(before, less), condition)
    case Meet(left, right) => Joined(GuardOf(left, less), GuardOf(right, less), less)
  }

  /** The conditions along each of the paths. */
  function PathsOf(f: Flow): seq<seq<Expr>> {
    match f
    case Start => [[]]
    case Branch(before, condition) =>
      var ps := PathsOf(before);
      seq(|ps|, i requires 0 <= i < |ps| => ps[i] + [condition])
    case Meet(left, right) => PathsOf(left) + PathsOf(right)
  }

  ghost predicate SomePathHolds(paths: seq<seq<Expr>>, v: string -> bool) {
    exists i :: 0 <= i < |paths| && All(paths[i], v)
  }

  /** A guard holds exactly if all conditions along one of its paths do. */
  lemma {:induction false} GuardIsPathCondition(f: Flow, less: (Expr, Expr) -> bool, v: string -> bool)
    ensures Eval(GuardOf(f, less), v) <==> SomePathHolds(PathsOf(f), v)
  {
    match f
    case Start =>
      assert All(PathsOf(f)[0], v);
    case Branch(before, condition) =>
      GuardIsPathCondition(before, less, v);
      AddIsConjunction(GuardOf(before, less), condition, v);
      var ps, qs := PathsOf(before), PathsOf(f);
      forall i | 0 <= i < |ps|
        ensures All(qs[i], v) <==> All(ps[i], v) && Eval(condition, v)
      {
        AllSplit(ps[i], [condition], v);
        assert Eval([condition][0], v) <==> All([condition], v);
      }
    case Meet(left, right) =>
      GuardIsPathCondition(left, less, v);
      GuardIsPathCondition(right, less, v);
      JoinIsDisjunction(GuardOf(left, less), GuardOf(right, less), less, v);
      var ps, qs := PathsOf(left), PathsOf(right);
      assert forall i :: 0 <= i < |ps| ==> (ps + qs)[i] == ps[i];
      assert forall i :: 0 <= i < |qs| ==> (ps + qs)[|ps| + i] == qs[i];
  }
}
