/**
 Conditions over integers, and their negation normal form.
 */
module Conditions {

  /** What the invariant analysis can keep apart: variables and numbers. */
  datatype Object = Variable(name: string) | Number(value: int)

  /** An integer-valued expression; one that is not an object is only known by its identity. */
  datatype Term = Obj(obj: Object) | Other(id: nat)

  datatype Cond =
    | Const(value: bool)
    | Not(op: Cond)
    | And(ops: seq<Cond>)
    | Or(ops: seq<Cond>)
    | NonZero(term: Term)
    | Le(lhs: Term, rhs: Term)
    | Lt(lhs: Term, rhs: Term)
    | Ge(lhs: Term, rhs: Term)
    | Gt(lhs: Term, rhs: Term)
    | Equal(lhs: Term, rhs: Term)
    | NotEqual(lhs: Term, rhs: Term)
    | Atom(id: nat)

  datatype Valuation = Valuation(vars: string -> int, others: nat -> int, atoms: nat -> bool)

  function ObjectValue(o: Object, v: Valuation): int {
    match o
    case Variable(name) => v.vars(name)
    case Number(value) => value
  }

  function TermValue(t: Term, v: Valuation): int {
    match t
    case Obj(o) => ObjectValue(o, v)
    case Other(id) => v.others(id)
  }

  predicate Eval(c: Cond, v: Valuation) {
    match c
    case Const(value) => value
    case Not(op) => !Eval(op, v)
    case And(ops) => forall i :: 0 <= i < |ops| ==> Eval(ops[i], v)
    case Or(ops) => exists i :: 0 <= i < |ops| && Eval(ops[i], v)
    case NonZero(t) => TermValue(t, v) != 0
    case Le(a, b) => TermValue(a, v) <= TermValue(b, v)
    case Lt(a, b) => TermValue(a, v) < TermValue(b, v)
    case Ge(a, b) => TermValue(a, v) >= TermValue(b, v)
    case Gt(a, b) => TermValue(a, v) > TermValue(b, v)
    case Equal(a, b) => TermValue(a, v) == TermValue(b, v)
    case NotEqual(a, b) => TermValue(a, v) != TermValue(b, v)
    case Atom(id) => v.atoms(id)
  }

  const ZERO := Obj(Number(0))

  /** Pushes a possible negation down to the comparisons and turns these into <=, <, = and !=. */
  function Nnf(c: Cond, negate: bool): Cond {
    match c
    case Const(value) => Const(value != negate)
    case Not(op) => Nnf(op, !negate)
    case And(ops) =>
      var parts := seq(|ops|, i requires 0 <= i < |ops| => Nnf(ops[i], negate));
      if negate then Or(parts) else And(parts)
    case Or(ops) =>
      var parts := seq(|ops|, i requires 0 <= i < |ops| => Nnf(ops[i], negate));
      if negate then And(parts) else Or(parts)
    case NonZero(t) => if negate then Equal(t, ZERO) else NotEqual(t, ZERO)
    case Le(a, b) => if negate then Lt(b, a) else c
    case Lt(a, b) => if negate then Le(b, a) else c
    case Ge(a, b) => if negate then Lt(a, b) else Le(b, a)
    case Gt(a, b) => if negate then Le(a, b) else Lt(b, a)
    case Equal(a, b) => if negate then NotEqual(a, b) else c
    case NotEqual(a, b) => if negate then Equal(a, b) else c
    case Atom(_) => if negate then Not(c) else c
  }

  /** The form keeps the meaning, or negates it if so asked. */
  lemma {:induction false} NnfKeepsMeaning(c: Cond, negate: bool, v: Valuation)
    ensures Eval(Nnf(c, negate), v) <==> (Eval(c, v) != negate)
  {
    match c
    case Not(op) =>
      NnfKeepsMeaning(op, !negate, v);
    case And(ops) =>
      forall i | 0 <= i < |ops|
        ensures Eval(Nnf(ops[i], negate), v) <==> (Eval(ops[i], v) != negate)
      {
        NnfKeepsMeaning(ops[i], negate, v);
      }
      var parts := seq(|ops|, i requires 0 <= i < |ops| => Nnf(ops[i], negate));
      assert forall i :: 0 <= i < |ops| ==> parts[i] == Nnf(ops[i], negate);
    case Or(ops) =>
      forall i | 0 <= i < |ops|
        ensures Eval(Nnf(ops[i], negate), v) <==> (Eval(ops[i], v) != negate)
      {
        NnfKeepsMeaning(ops[i], negate, v);
      }
      var parts := seq(|ops|, i requires 0 <= i < |ops| => Nnf(ops[i], negate));
      assert forall i :: 0 <= i < |ops| ==> parts[i] == Nnf(ops[i], negate);
    case _ =>
  }

  /** No >= and no >, no integers for conditions, and negation only of what cannot be looked into. */
  predicate InNnf(c: Cond) {
    match c
    case Not(op) => op.Atom?
    case And(ops) => forall i :: 0 <= i < |ops| ==> InNnf(ops[i])
    case Or(ops) => forall i :: 0 <= i < |ops| ==> InNnf(ops[i])
    case NonZero(_) => false
    case Ge(_, _) => false
    case Gt(_, _) => false
    case _ => true
  }

  lemma {:induction false} NnfHasForm(c: Cond, negate: bool)
    ensures InNnf(Nnf(c, negate))
  {
    match c
    case Not(op) =>
      NnfHasForm(op, !negate);
    case And(ops) =>
      forall i | 0 <= i < |ops|
        ensures InNnf(Nnf(ops[i], negate))
      {
        NnfHasForm(ops[i], negate);
      }
    case Or(ops) =>
      forall i | 0 <= i < |ops|
        ensures InNnf(Nnf(ops[i], negate))
      {
        NnfHasForm(ops[i], negate);
      }
    case _ =>
  }
}
