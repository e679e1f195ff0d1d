/**
 What kinds of thing each local pointer of a function may point to: a flow analysis with a work
 queue of its own, which visits a node only when flags arrive there that are new.
 */
module LocalBitvector {
  import opened Options
  import opened SortedSets
  import opened GotoProgram

  // --- flags -------------------------------------------------------------------------------------

  datatype Flag =
    | UnknownKind
    | UninitializedKind
    | UsesOffset
    | DynamicLocal
    | DynamicHeap
    | NullPointer
    | StaticLifetime
    | IntegerAddress

  /** The bits that are set. */
  type Flags = set<Flag>

  /** Flags by pointer; a pointer without an entry has no flags. */
  type PointsTo = map<string, Flags>

  function FlagsOf(m: PointsTo, x: string): Flags {
    if x in m then m[x] else {}
  }

  // --- expressions -------------------------------------------------------------------------------

  datatype Expr =
    | Constant(zero: bool)
    | Symbol(name: string)
    | AddressOf(target: Expr)
    | Dereference(pointer: Expr)
    | Index(base: Expr)
    | Member(structOp: Expr)
    | Typecast(op: Expr)
    | If(trueCase: Expr, falseCase: Expr)
    | Plus(operands: seq<Operand>)
    | Minus(op0: Operand, op1: Operand)
    | SideEffect(allocate: bool)
    | Uninitialized
    | Nil

  /** An operand, and whether its type is a pointer. */
  datatype Operand = Operand(expr: Expr, isPointer: bool)

  datatype Action =
    | Assign(lhs: Expr, rhs: Expr)
    | Decl(declared: string)
    | Dead(dead: string)
    | Call(result: Option<Expr>)
    | NoAction

  /** The variables of the function. */
  datatype Variables = Variables(locals: set<string>, pointers: set<string>, dirty: set<string>)

  predicate Tracked(vars: Variables, x: string) {
    x in vars.locals && x in vars.pointers && x !in vars.dirty
  }

  function TrackedOnes(vars: Variables): set<string> {
    set x | x in vars.locals && Tracked(vars, x)
  }

  /** The flags of a right-hand side. */
  function GetRec(vars: Variables, e: Expr, src: PointsTo): Flags {
    match e
    case Constant(zero) => if zero then {NullPointer} else {IntegerAddress}
    case Symbol(x) => if Tracked(vars, x) then FlagsOf(src, x) else {UnknownKind}
    case AddressOf(Symbol(x)) => if x in vars.locals then {DynamicLocal} else {StaticLifetime}
    case AddressOf(Index(Symbol(x))) =>
      if x in vars.locals then {DynamicLocal, UsesOffset} else {StaticLifetime, UsesOffset}
    case Typecast(op) => GetRec(vars, op, src)
    case Uninitialized => {UninitializedKind}
    case Plus(operands) =>
      if |operands| >= 3 then GetRec(vars, operands[0].expr, src) + {UsesOffset}
      else if |operands| == 2 && operands[0].isPointer then GetRec(vars, operands[0].expr, src) + {UsesOffset}
      else if |operands| == 2 && operands[1].isPointer then GetRec(vars, operands[1].expr, src) + {UsesOffset}
      else {UnknownKind}
    case Minus(op0, _) => if op0.isPointer then GetRec(vars, op0.expr, src) + {UsesOffset} else {UnknownKind}
    case SideEffect(allocate) => if allocate then {DynamicHeap} else {UnknownKind}
    case _ => {UnknownKind}
  }

  /** Assigns to whatever the left-hand side may be, all of it if there is a choice. */
  function AssignLhs(vars: Variables, lhs: Expr, rhs: Expr, src: PointsTo, dest: PointsTo): PointsTo
    decreases lhs
  {
    match lhs
    case Symbol(x) => if Tracked(vars, x) then dest[x := GetRec(vars, rhs, src)] else dest
    case Index(base) => AssignLhs(vars, base, rhs, src, dest)
    case Member(structOp) => AssignLhs(vars, structOp, rhs, src, dest)
    case Typecast(op) => AssignLhs(vars, op, rhs, src, dest)
    case If(trueCase, falseCase) =>
      AssignLhs(vars, falseCase, rhs, src, AssignLhs(vars, trueCase, rhs, src, dest))
    case _ => dest
  }

  /** The assignment an instruction amounts to. */
  function Assignment(a: Action): Option<(Expr, Expr)> {
    match a
    case Assign(lhs, rhs) => Some((lhs, rhs))
    case Decl(x) => Some((Symbol(x), Uninitialized))
    case Dead(x) => Some((Symbol(x), Uninitialized))
    case Call(Some(lhs)) => Some((lhs, Nil))
    case _ => None
  }

  function Transfer(vars: Variables, a: Action, src: PointsTo): PointsTo {
    match Assignment(a)
    case None => src
    case Some(p) => AssignLhs(vars, p.0, p.1, src, src)
  }

  // --- what pointers are at run time ---------------------------------------------------------------

  /** What a pointer points to, and whether it is off the start of that. */
  datatype Pointer = Pointer(kind: Flag, offset: bool)

  /** The flags are right about the pointer, or say that they know nothing. */
  predicate Describes(flags: Flags, v: Pointer) {
    UnknownKind in flags || (v.kind in flags && (v.offset ==> UsesOffset in flags))
  }

  /** The values an expression can have; what the analysis does not look at can be anything. */
  ghost predicate Evaluates(vars: Variables, env: string -> Pointer, e: Expr, v: Pointer) {
    match e
    case Constant(zero) => v == Pointer(if zero then NullPointer else IntegerAddress, false)
    case Symbol(x) => Tracked(vars, x) ==> v == env(x)
    case AddressOf(Symbol(x)) => v == Pointer(if x in vars.locals then DynamicLocal else StaticLifetime, false)
    case AddressOf(Index(Symbol(x))) => v.kind == if x in vars.locals then DynamicLocal else StaticLifetime
    case Typecast(op) => Evaluates(vars, env, op, v)
    case Uninitialized => v == Pointer(UninitializedKind, false)
    case Plus(operands) =>
      if |operands| >= 3 then exists w :: Evaluates(vars, env, operands[0].expr, w) && v.kind == w.kind
      else if |operands| == 2 && operands[0].isPointer then
        exists w :: Evaluates(vars, env, operands[0].expr, w) && v.kind == w.kind
      else if |operands| == 2 && operands[1].isPointer then
        exists w :: Evaluates(vars, env, operands[1].expr, w) && v.kind == w.kind
      else true
    case Minus(op0, op1) =>
      if op0.isPointer && op1.isPointer then v.kind == NullPointer || v.kind == IntegerAddress
      else if op0.isPointer then exists w :: Evaluates(vars, env, op0.expr, w) && v.kind == w.kind
      else true
    case SideEffect(allocate) => allocate ==> v == Pointer(DynamicHeap, false)
    case _ => true
  }

  /** The variables an assignment can be to, as the condition turns out; None is something else. */
  function Targets(lhs: Expr): set<Option<string>> {
    match lhs
    case Symbol(x) => {Some(x)}
    case Index(base) => Targets(base)
    case Member(structOp) => Targets(structOp)
    case Typecast(op) => Targets(op)
    case If(trueCase, falseCase) => Targets(trueCase) + Targets(falseCase)
    case _ => {None}
  }

  /** A pointer of the function that nothing points to, so that it changes only where it is named. */
  ghost predicate ChangesByName(vars: Variables, x: string) {
    x in vars.locals && x in vars.pointers && x !in vars.dirty
  }

  ghost predicate Assigned(
    vars: Variables, env: string -> Pointer, env': string -> Pointer, target: Option<string>, v: Pointer)
  {
    forall x :: ChangesByName(vars, x) ==> env'(x) == if target == Some(x) then v else env(x)
  }

  ghost predicate Assigns(vars: Variables, lhs: Expr, rhs: Expr, env: string -> Pointer, env': string -> Pointer) {
    exists target, v :: target in Targets(lhs) && Evaluates(vars, env, rhs, v) && Assigned(vars, env, env', target, v)
  }

  /** All is as before, but for one variable that has nothing in it yet, or any more. */
  ghost predicate Clears(vars: Variables, x: string, env: string -> Pointer, env': string -> Pointer) {
    forall y :: ChangesByName(vars, y) ==> env'(y) == if y == x then Pointer(UninitializedKind, false) else env(y)
  }

  ghost predicate Executes(vars: Variables, a: Action, env: string -> Pointer, env': string -> Pointer) {
    match a
    case Assign(lhs, rhs) => Assigns(vars, lhs, rhs, env, env')
    case Decl(x) => Clears(vars, x, env, env')
    case Dead(x) => Clears(vars, x, env, env')
    case Call(Some(lhs)) => exists target, v :: target in Targets(lhs) && Assigned(vars, env, env', target, v)
    case _ => forall x :: ChangesByName(vars, x) ==> env'(x) == env(x)
  }

  /** Which is what the assignment does that the instruction is taken for. */
  lemma ExecutesAssignment(vars: Variables, a: Action, env: string -> Pointer, env': string -> Pointer)
    ensures Executes(vars, a, env, env') <==>
      match Assignment(a)
      case None => forall x :: ChangesByName(vars, x) ==> env'(x) == env(x)
      case Some(p) => Assigns(vars, p.0, p.1, env, env')
  {
    match a
    case Decl(x) => ClearsByAssignment(vars, x, env, env');
    case Dead(x) => ClearsByAssignment(vars, x, env, env');
    case Call(Some(lhs)) => assert forall v :: Evaluates(vars, env, Nil, v);
    case _ =>
  }

  lemma ClearsByAssignment(vars: Variables, x: string, env: string -> Pointer, env': string -> Pointer)
    ensures Clears(vars, x, env, env') <==> Assigns(vars, Symbol(x), Uninitialized, env, env')
  {
    var v := Pointer(UninitializedKind, false);
    assert Some(x) in Targets(Symbol(x)) && Evaluates(vars, env, Uninitialized, v);
    assert Clears(vars, x, env, env') <==> Assigned(vars, env, env', Some(x), v);
  }

  ghost predicate DescribesAll(vars: Variables, m: PointsTo, env: string -> Pointer) {
    forall x :: Tracked(vars, x) ==> Describes(FlagsOf(m, x), env(x))
  }

  // --- right-hand sides ----------------------------------------------------------------------------

  /** The flags of the expression can do without the unknown bit. */
  predicate Classified(vars: Variables, e: Expr) {
    match e
    case Constant(_) => true
    case Symbol(x) => Tracked(vars, x)
    case AddressOf(Symbol(_)) => true
    case AddressOf(Index(Symbol(_))) => true
    case Typecast(op) => Classified(vars, op)
    case Uninitialized => true
    case Plus(operands) =>
      if |operands| >= 3 then Classified(vars, operands[0].expr)
      else if |operands| == 2 && operands[0].isPointer then Classified(vars, operands[0].expr)
      else if |operands| == 2 && operands[1].isPointer then Classified(vars, operands[1].expr)
      else false
    case Minus(op0, _) => op0.isPointer && Classified(vars, op0.expr)
    case SideEffect(allocate) => allocate
    case _ => false
  }

  /** The difference of two pointers, which is a number, is taken for the first of them. */
  predicate Misread(vars: Variables, e: Expr) {
    match e
    case Typecast(op) => Misread(vars, op)
    case Plus(operands) =>
      if |operands| >= 3 then Misread(vars, operands[0].expr)
      else if |operands| == 2 && operands[0].isPointer then Misread(vars, operands[0].expr)
      else if |operands| == 2 && operands[1].isPointer then Misread(vars, operands[1].expr)
      else false
    case Minus(op0, op1) =>
      op0.isPointer && if op1.isPointer then Classified(vars, op0.expr) else Misread(vars, op0.expr)
    case _ => false
  }

  lemma {:induction false} UnclassifiedIsUnknown(vars: Variables, e: Expr, src: PointsTo)
    requires !Classified(vars, e)
    ensures UnknownKind in GetRec(vars, e, src) && GetRec(vars, e, src) <= {UnknownKind, UsesOffset}
  {
    match e
    case Typecast(op) => UnclassifiedIsUnknown(vars, op, src);
    case Plus(operands) =>
      if |operands| >= 3 || (|operands| == 2 && operands[0].isPointer) {
        UnclassifiedIsUnknown(vars, operands[0].expr, src);
      } else if |operands| == 2 && operands[1].isPointer {
        UnclassifiedIsUnknown(vars, operands[1].expr, src);
      }
    case Minus(op0, _) =>
      if op0.isPointer {
        UnclassifiedIsUnknown(vars, op0.expr, src);
      }
    case _ =>
  }

  /** The flags of a right-hand side that is not misread describe its value. */
  lemma {:induction false} RightHandSideIsSound(
    vars: Variables, e: Expr, src: PointsTo, env: string -> Pointer, v: Pointer)
    requires !Misread(vars, e) && DescribesAll(vars, src, env) && Evaluates(vars, env, e, v)
    ensures Describes(GetRec(vars, e, src), v)
  {
    match e
    case Typecast(op) => RightHandSideIsSound(vars, op, src, env, v);
    case Plus(operands) =>
      if |operands| >= 3 || (|operands| == 2 && operands[0].isPointer) {
        var w :| Evaluates(vars, env, operands[0].expr, w) && v.kind == w.kind;
        RightHandSideIsSound(vars, operands[0].expr, src, env, w);
      } else if |operands| == 2 && operands[1].isPointer {
        var w :| Evaluates(vars, env, operands[1].expr, w) && v.kind == w.kind;
        RightHandSideIsSound(vars, operands[1].expr, src, env, w);
      }
    case Minus(op0, op1) =>
      if op0.isPointer && op1.isPointer {
        UnclassifiedIsUnknown(vars, op0.expr, src);
      } else if op0.isPointer {
        var w :| Evaluates(vars, env, op0.expr, w) && v.kind == w.kind;
        RightHandSideIsSound(vars, op0.expr, src, env, w);
      }
    case _ =>
  }

  /** A state in which every pointer is to a local object, and is known to be. */
  function AllLocal(vars: Variables): PointsTo {
    map x | x in TrackedOnes(vars) :: {DynamicLocal}
  }

  lemma {:induction false} ClassifiedAvoids(vars: Variables, e: Expr)
    requires Classified(vars, e)
    ensures UnknownKind !in GetRec(vars, e, AllLocal(vars))
    ensures NullPointer !in GetRec(vars, e, AllLocal(vars)) || IntegerAddress !in GetRec(vars, e, AllLocal(vars))
  {
    match e
    case Typecast(op) => ClassifiedAvoids(vars, op);
    case Plus(operands) =>
      if |operands| >= 3 || operands[0].isPointer {
        ClassifiedAvoids(vars, operands[0].expr);
      } else {
        ClassifiedAvoids(vars, operands[1].expr);
      }
    case Minus(op0, _) => ClassifiedAvoids(vars, op0.expr);
    case _ =>
  }

  /** A misread expression has a value its flags are wrong about. */
  lemma {:induction false} MisreadIsUnsound(vars: Variables, e: Expr) returns (v: Pointer)
    requires Misread(vars, e)
    ensures DescribesAll(vars, AllLocal(vars), _ => Pointer(DynamicLocal, false))
    ensures Evaluates(vars, _ => Pointer(DynamicLocal, false), e, v)
    ensures !Describes(GetRec(vars, e, AllLocal(vars)), v)
    ensures !v.offset && v.kind in {NullPointer, IntegerAddress}
  {
    match e
    case Typecast(op) => v := MisreadIsUnsound(vars, op);
    case Plus(operands) =>
      if |operands| >= 3 || operands[0].isPointer {
        v := MisreadIsUnsound(vars, operands[0].expr);
      } else {
        v := MisreadIsUnsound(vars, operands[1].expr);
      }
    case Minus(op0, op1) =>
      if op1.isPointer {
        ClassifiedAvoids(vars, op0.expr);
        var flags := GetRec(vars, op0.expr, AllLocal(vars));
        v := Pointer(if NullPointer in flags then IntegerAddress else NullPointer, false);
      } else {
        v := MisreadIsUnsound(vars, op0.expr);
      }
  }

  ghost predicate RightHandSideSound(
    vars: Variables, e: Expr, src: PointsTo, env: string -> Pointer, v: Pointer)
  {
    DescribesAll(vars, src, env) && Evaluates(vars, env, e, v) ==> Describes(GetRec(vars, e, src), v)
  }

  /** Exactly the right-hand sides that are not misread are always described rightly. */
  lemma SoundUnlessMisread(vars: Variables, e: Expr)
    ensures (forall src, env, v :: RightHandSideSound(vars, e, src, env, v)) <==> !Misread(vars, e)
  {
    if Misread(vars, e) {
      var v := MisreadIsUnsound(vars, e);
      assert !RightHandSideSound(vars, e, AllLocal(vars), _ => Pointer(DynamicLocal, false), v);
    } else {
      forall src, env, v
        ensures RightHandSideSound(vars, e, src, env, v)
      {
        if DescribesAll(vars, src, env) && Evaluates(vars, env, e, v) {
          RightHandSideIsSound(vars, e, src, env, v);
        }
      }
    }
  }

  // --- no flags too many ---------------------------------------------------------------------------

  /** The tracked variable whose value, but for an offset, the expression has. */
  function Copied(vars: Variables, e: Expr): Option<string> {
    match e
    case Symbol(x) => if Tracked(vars, x) then Some(x) else None
    case Typecast(op) => Copied(vars, op)
    case Plus(operands) =>
      if |operands| >= 3 || (|operands| == 2 && operands[0].isPointer) then Copied(vars, operands[0].expr)
      else if |operands| == 2 && operands[1].isPointer then Copied(vars, operands[1].expr)
      else None
    case Minus(op0, _) => if op0.isPointer then Copied(vars, op0.expr) else None
    case _ => None
  }

  function CopiedFlags(vars: Variables, e: Expr, src: PointsTo): Flags {
    match Copied(vars, e)
    case None => {}
    case Some(x) => FlagsOf(src, x)
  }

  /** The flags are those of the copied variable and others that do not depend on the state. */
  lemma {:induction false} FlagsSplit(vars: Variables, e: Expr, src: PointsTo)
    ensures GetRec(vars, e, src) == GetRec(vars, e, map[]) + CopiedFlags(vars, e, src)
    ensures Copied(vars, e).Some? ==> Classified(vars, e) && Tracked(vars, Copied(vars, e).value)
  {
    match e
    case Typecast(op) => FlagsSplit(vars, op, src);
    case Plus(operands) =>
      if |operands| >= 3 || (|operands| == 2 && operands[0].isPointer) {
        FlagsSplit(vars, operands[0].expr, src);
      } else if |operands| == 2 && operands[1].isPointer {
        FlagsSplit(vars, operands[1].expr, src);
      }
    case Minus(op0, _) =>
      if op0.isPointer {
        FlagsSplit(vars, op0.expr, src);
      }
    case _ =>
  }

  /** So what is known of a join is what is known of either state. */
  lemma FlagsDistribute(vars: Variables, e: Expr, a: PointsTo, b: PointsTo)
    ensures GetRec(vars, e, Joined(a, b)) == GetRec(vars, e, a) + GetRec(vars, e, b)
  {
    FlagsSplit(vars, e, a);
    FlagsSplit(vars, e, b);
    FlagsSplit(vars, e, Joined(a, b));
    JoinedIsUnion(a, b);
  }

  /** The unknown bit is there just if the expression is not classified, or copies a variable that has it. */
  lemma {:induction false} UnknownExactly(vars: Variables, e: Expr, src: PointsTo)
    ensures UnknownKind in GetRec(vars, e, src) <==>
      !Classified(vars, e) || UnknownKind in CopiedFlags(vars, e, src)
  {
    match e
    case Typecast(op) => UnknownExactly(vars, op, src);
    case Plus(operands) =>
      if |operands| >= 3 || (|operands| == 2 && operands[0].isPointer) {
        UnknownExactly(vars, operands[0].expr, src);
      } else if |operands| == 2 && operands[1].isPointer {
        UnknownExactly(vars, operands[1].expr, src);
      }
    case Minus(op0, _) =>
      if op0.isPointer {
        UnknownExactly(vars, op0.expr, src);
      }
    case _ =>
  }

  /** The value is what the flag says. */
  predicate Shows(v: Pointer, f: Flag) {
    if f == UsesOffset then v.offset else v.kind == f
  }

  lemma {:induction false} HasValue(vars: Variables, env: string -> Pointer, e: Expr) returns (v: Pointer)
    ensures Evaluates(vars, env, e, v)
  {
    v := Pointer(UninitializedKind, false);
    match e
    case Constant(zero) => v := Pointer(if zero then NullPointer else IntegerAddress, false);
    case Symbol(x) => v := env(x);
    case AddressOf(Symbol(x)) => v := Pointer(if x in vars.locals then DynamicLocal else StaticLifetime, false);
    case AddressOf(Index(Symbol(x))) => v := Pointer(if x in vars.locals then DynamicLocal else StaticLifetime, false);
    case Typecast(op) => v := HasValue(vars, env, op);
    case Plus(operands) =>
      if |operands| >= 3 || (|operands| == 2 && operands[0].isPointer) {
        v := HasValue(vars, env, operands[0].expr);
      } else if |operands| == 2 && operands[1].isPointer {
        v := HasValue(vars, env, operands[1].expr);
      }
    case Minus(op0, op1) =>
      if op0.isPointer && op1.isPointer {
        v := Pointer(NullPointer, false);
      } else if op0.isPointer {
        v := HasValue(vars, env, op0.expr);
      }
    case SideEffect(_) => v := Pointer(DynamicHeap, false);
    case _ =>
  }

  /** A flag the expression has of itself, or of a variable whose value shows it. */
  ghost predicate Founded(vars: Variables, e: Expr, env: string -> Pointer, f: Flag) {
    f in GetRec(vars, e, map[]) || (Copied(vars, e).Some? && Shows(env(Copied(vars, e).value), f))
  }

  /** The value of an operand that shows the flag, or any if the flag is that of an offset. */
  lemma {:induction false} OperandShows(vars: Variables, env: string -> Pointer, e: Expr, op: Expr, f: Flag)
    returns (v: Pointer)
    requires op < e && !Misread(vars, op) && f != UnknownKind && (f == UsesOffset || Founded(vars, op, env, f))
    ensures Evaluates(vars, env, op, v) && Shows(Pointer(v.kind, true), f)
    decreases e, 0
  {
    if Founded(vars, op, env, f) {
      v := ValueShows(vars, env, op, f);
    } else {
      v := HasValue(vars, env, op);
    }
  }

  /** Each flag but the unknown bit is shown by some value of an expression that is not misread. */
  lemma {:induction false} ValueShows(vars: Variables, env: string -> Pointer, e: Expr, f: Flag) returns (v: Pointer)
    requires !Misread(vars, e) && f != UnknownKind && Founded(vars, e, env, f)
    ensures Evaluates(vars, env, e, v) && Shows(v, f)
    decreases e, 1
  {
    match e
    case Symbol(x) => v := env(x);
    case AddressOf(Index(Symbol(x))) => v := Pointer(if x in vars.locals then DynamicLocal else StaticLifetime, true);
    case Typecast(op) => v := ValueShows(vars, env, op, f);
    case Plus(operands) =>
      if |operands| >= 3 || (|operands| == 2 && operands[0].isPointer) {
        v := OperandShows(vars, env, e, operands[0].expr, f);
        v := Pointer(v.kind, true);
      } else if |operands| == 2 && operands[1].isPointer {
        v := OperandShows(vars, env, e, operands[1].expr, f);
        v := Pointer(v.kind, true);
      }
    case Minus(op0, op1) =>
      if op0.isPointer && op1.isPointer {
        UnclassifiedIsUnknown(vars, op0.expr, map[]);
        FlagsSplit(vars, op0.expr, map[]);
        v := Pointer(NullPointer, true);
      } else if op0.isPointer {
        v := OperandShows(vars, env, e, op0.expr, f);
        v := Pointer(v.kind, true);
      }
    case _ => v := HasValue(vars, env, e);
  }

  /** So is each flag in a state that describes anything, in an environment it describes. */
  lemma NoFlagTooMany(vars: Variables, e: Expr, src: PointsTo, env0: string -> Pointer, f: Flag)
    returns (env: string -> Pointer, v: Pointer)
    requires !Misread(vars, e) && DescribesAll(vars, src, env0) && f in GetRec(vars, e, src) && f != UnknownKind
    ensures DescribesAll(vars, src, env) && Evaluates(vars, env, e, v) && Shows(v, f)
  {
    FlagsSplit(vars, e, src);
    env := env0;
    if f !in GetRec(vars, e, map[]) {
      var x := Copied(vars, e).value;
      var w := Pointer(if f == UsesOffset then env0(x).kind else f, f == UsesOffset);
      env := (y: string) => if y == x then w else env0(y);
    }
    v := ValueShows(vars, env, e, f);
  }

  // --- left-hand sides -----------------------------------------------------------------------------

  /** The assignment gives the flags of the right-hand side to all tracked variables it may be to. */
  lemma {:induction false} AssignLhsIs(vars: Variables, lhs: Expr, rhs: Expr, src: PointsTo, dest: PointsTo, x: string)
    ensures FlagsOf(AssignLhs(vars, lhs, rhs, src, dest), x) ==
      if Tracked(vars, x) && Some(x) in Targets(lhs) then GetRec(vars, rhs, src) else FlagsOf(dest, x)
    ensures AssignLhs(vars, lhs, rhs, src, dest).Keys <= dest.Keys + TrackedOnes(vars)
    decreases lhs
  {
    match lhs
    case Index(base) => AssignLhsIs(vars, base, rhs, src, dest, x);
    case Member(structOp) => AssignLhsIs(vars, structOp, rhs, src, dest, x);
    case Typecast(op) => AssignLhsIs(vars, op, rhs, src, dest, x);
    case If(trueCase, falseCase) =>
      AssignLhsIs(vars, trueCase, rhs, src, dest, x);
      AssignLhsIs(vars, falseCase, rhs, src, AssignLhs(vars, trueCase, rhs, src, dest), x);
    case _ =>
  }

  /** If the assignment may be to a tracked variable, it can be to nothing else. */
  ghost predicate DefiniteTarget(vars: Variables, lhs: Expr) {
    forall x, t :: Some(x) in Targets(lhs) && t in Targets(lhs) && Tracked(vars, x) ==> t == Some(x)
  }

  ghost predicate AssignmentSound(
    vars: Variables, lhs: Expr, rhs: Expr, src: PointsTo, env: string -> Pointer, env': string -> Pointer)
  {
    DescribesAll(vars, src, env) && Assigns(vars, lhs, rhs, env, env') ==>
      DescribesAll(vars, AssignLhs(vars, lhs, rhs, src, src), env')
  }

  lemma DefiniteAssignmentIsSound(
    vars: Variables, lhs: Expr, rhs: Expr, src: PointsTo, env: string -> Pointer, env': string -> Pointer)
    requires DefiniteTarget(vars, lhs) && !Misread(vars, rhs)
    ensures AssignmentSound(vars, lhs, rhs, src, env, env')
  {
    if DescribesAll(vars, src, env) && Assigns(vars, lhs, rhs, env, env') {
      var target, v :| target in Targets(lhs) && Evaluates(vars, env, rhs, v) && Assigned(vars, env, env', target, v);
      RightHandSideIsSound(vars, rhs, src, env, v);
      forall x | Tracked(vars, x)
        ensures Describes(FlagsOf(AssignLhs(vars, lhs, rhs, src, src), x), env'(x))
      {
        AssignLhsIs(vars, lhs, rhs, src, src, x);
      }
    }
  }

  /** Where two targets are in question, the one that is not assigned gets wrong flags. */
  lemma ChoiceIsUnsound(vars: Variables, lhs: Expr, x: string, t: Option<string>)
    requires Some(x) in Targets(lhs) && t in Targets(lhs) && Tracked(vars, x) && t != Some(x)
    ensures
      var env := (_: string) => Pointer(DynamicLocal, false);
      var env' := (y: string) => Pointer(if t == Some(y) then NullPointer else DynamicLocal, false);
      !AssignmentSound(vars, lhs, Constant(true), AllLocal(vars), env, env')
  {
    var env := (_: string) => Pointer(DynamicLocal, false);
    var env' := (y: string) => Pointer(if t == Some(y) then NullPointer else DynamicLocal, false);
    assert Evaluates(vars, env, Constant(true), Pointer(NullPointer, false));
    assert Assigned(vars, env, env', t, Pointer(NullPointer, false));
    assert Assigns(vars, lhs, Constant(true), env, env');
    AssignLhsIs(vars, lhs, Constant(true), AllLocal(vars), AllLocal(vars), x);
    assert !Describes(FlagsOf(AssignLhs(vars, lhs, Constant(true), AllLocal(vars), AllLocal(vars)), x), env'(x));
  }

  /** Exactly the left-hand sides that leave no choice are always assigned soundly. */
  lemma SoundIfTargetDefinite(vars: Variables, lhs: Expr)
    ensures (forall rhs, src, env, env' :: !Misread(vars, rhs) ==> AssignmentSound(vars, lhs, rhs, src, env, env'))
      <==> DefiniteTarget(vars, lhs)
  {
    if DefiniteTarget(vars, lhs) {
      forall rhs, src, env, env' | !Misread(vars, rhs)
        ensures AssignmentSound(vars, lhs, rhs, src, env, env')
      {
        DefiniteAssignmentIsSound(vars, lhs, rhs, src, env, env');
      }
    } else {
      var x, t :| Some(x) in Targets(lhs) && t in Targets(lhs) && Tracked(vars, x) && t != Some(x);
      ChoiceIsUnsound(vars, lhs, x, t);
      assert !Misread(vars, Constant(true));
    }
  }

  // --- the graph the analysis walks -------------------------------------------------------------

  /** Successors in the graph the analysis builds for itself. */
  function CfgSuccessors(p: Program, l: nat): (s: seq<nat>)
    requires l < |p|
  {
    match p[l]
    case Goto(target, always) => (if always then [] else [l + 1]) + [target]
    case StartThread(target) => [l + 1, target]
    case Throw => []
    case EndFunction => []
    case EndThread => []
    case _ => [l + 1]
  }

  /** Collects the successors of every node. */
  method BuildCfg(p: Program) returns (nodes: seq<seq<nat>>)
    requires WellFormed(p)
    ensures |nodes| == |p|
    ensures forall l: nat, t: nat :: l < |p| ==> (t in nodes[l] <==> t in Successors(p, l) || PassesNever(p, l, t))
    ensures forall l :: 0 <= l < |p| ==> nodes[l] == CfgSuccessors(p, l)
  {
    nodes := [];
    for l := 0 to |p|
      invariant |nodes| == l && forall k :: 0 <= k < l ==> nodes[k] == CfgSuccessors(p, k)
    {
      var successors: seq<nat> := [];
      match p[l] {
        case Goto(target, always) =>
          if !always {
            successors := successors + [l + 1];
          }
          successors := successors + [target];
        case StartThread(target) =>
          successors := successors + [l + 1] + [target];
        case Throw =>
        case EndFunction =>
        case EndThread =>
        case _ =>
          successors := successors + [l + 1];
      }
      nodes := nodes + [successors];
    }
    forall l: nat, t: nat | l < |p|
      ensures t in CfgSuccessors(p, l) <==> t in Successors(p, l) || PassesNever(p, l, t)
    {
      CfgCoversFlow(p, l, t);
    }
  }

  /** The edge over an assumption that never holds. */
  predicate PassesNever(p: Program, l: nat, t: nat) {
    l < |p| && p[l].Assume? && p[l].never && t == l + 1
  }

  lemma CfgInRange(p: Program, l: nat)
    requires WellFormed(p) && l < |p|
    ensures forall s :: s in CfgSuccessors(p, l) ==> s < |p|
  {
  }

  /** It has all edges that control can take, and only passes assumptions that never hold besides. */
  lemma CfgCoversFlow(p: Program, l: nat, s: nat)
    requires WellFormed(p) && l < |p|
    ensures s in CfgSuccessors(p, l) <==> s in Successors(p, l) || PassesNever(p, l, s)
  {
  }

  // --- the work queue ------------------------------------------------------------------------------

  /** Pointer by pointer; one that gets no flags gets no entry. */
  function Joined(a: PointsTo, b: PointsTo): PointsTo {
    map x | x in a.Keys + b.Keys && (x in a || b[x] != {}) :: FlagsOf(a, x) + FlagsOf(b, x)
  }

  ghost predicate Below(a: PointsTo, b: PointsTo) {
    forall x :: FlagsOf(a, x) <= FlagsOf(b, x)
  }

  lemma JoinedIsUnion(a: PointsTo, b: PointsTo)
    ensures forall x :: FlagsOf(Joined(a, b), x) == FlagsOf(a, x) + FlagsOf(b, x)
    ensures Joined(a, b) == a <==> Below(b, a)
  {
    if Below(b, a) {
      forall x | x in Joined(a, b)
        ensures x in a && Joined(a, b)[x] == a[x]
      {
        assert FlagsOf(b, x) <= FlagsOf(a, x);
      }
    }
  }

  /** One pointer with flags joined in. */
  function WithFlags(a: PointsTo, x: string, flags: Flags): PointsTo {
    if flags <= FlagsOf(a, x) then a else a[x := FlagsOf(a, x) + flags]
  }

  lemma JoinedStep(a: PointsTo, b: PointsTo, todo: set<string>, x: string)
    requires todo <= b.Keys && x in todo
    ensures Joined(a, b - (todo - {x})) == WithFlags(Joined(a, b - todo), x, b[x])
    ensures FlagsOf(Joined(a, b - todo), x) == FlagsOf(a, x)
    ensures Below(b - (todo - {x}), a) <==> Below(b - todo, a) && b[x] <= FlagsOf(a, x)
  {
    var done, done' := b - todo, b - (todo - {x});
    assert done' == done[x := b[x]] && x !in done;
    JoinedOne(a, done, x, b[x]);
    assert FlagsOf(done', x) == b[x] && forall y :: y != x ==> FlagsOf(done', y) == FlagsOf(done, y);
    assert FlagsOf(done, x) == {};
  }

  lemma JoinedOne(a: PointsTo, b: PointsTo, x: string, flags: Flags)
    requires x !in b
    ensures Joined(a, b[x := flags]) == WithFlags(Joined(a, b), x, flags)
    ensures FlagsOf(Joined(a, b), x) == FlagsOf(a, x)
  {
    var b' := b[x := flags];
    var l, r := Joined(a, b'), WithFlags(Joined(a, b), x, flags);
    assert x in a ==> a[x] + {} == a[x];
    forall y
      ensures y in l <==> y in r
      ensures y in l ==> l[y] == r[y]
    {
      if y != x {
        assert FlagsOf(b', y) == FlagsOf(b, y);
        assert y in r <==> y in Joined(a, b);
      }
    }
    assert l.Keys == r.Keys;
  }

  /** All pointers of `b` but those still to do are joined into `a`. */
  ghost predicate MergeSoFar(a: PointsTo, b: PointsTo, todo: set<string>, r: PointsTo, changed: bool) {
    todo <= b.Keys && r == Joined(a, b - todo) && (changed <==> !Below(b - todo, a))
  }

  lemma MergeStarts(a: PointsTo, b: PointsTo)
    ensures MergeSoFar(a, b, b.Keys, a, false)
  {
    assert b - b.Keys == map[];
    JoinedIsUnion(a, map[]);
  }

  lemma MergeStep(a: PointsTo, b: PointsTo, todo: set<string>, r: PointsTo, changed: bool, x: string)
    requires MergeSoFar(a, b, todo, r, changed) && x in todo
    ensures x in b
    ensures MergeSoFar(a, b, todo - {x}, WithFlags(r, x, b[x]), changed || !(b[x] <= FlagsOf(r, x)))
  {
    JoinedStep(a, b, todo, x);
  }

  lemma MergeEnds(a: PointsTo, b: PointsTo, r: PointsTo, changed: bool)
    requires MergeSoFar(a, b, {}, r, changed)
    ensures r == Joined(a, b) && (changed <==> !Below(b, a))
  {
    assert b - {} == b;
  }

  /** Joins flags pointer by pointer; tells whether any were new. */
  method MergeFlags(a: PointsTo, b: PointsTo) returns (r: PointsTo, changed: bool)
    ensures r == Joined(a, b)
    ensures changed <==> !Below(b, a)
  {
    r, changed := a, false;
    var todo := b.Keys;
    MergeStarts(a, b);
    while todo != {}
      invariant MergeSoFar(a, b, todo, r, changed)
      decreases |todo|
    {
      var x :| x in todo;
      MergeStep(a, b, todo, r, changed, x);
      if !(b[x] <= FlagsOf(r, x)) {
        r := r[x := FlagsOf(r, x) + b[x]];
        changed := true;
      }
      todo := todo - {x};
    }
    MergeEnds(a, b, r, changed);
  }

  ghost predicate TrackedOnly(vars: Variables, m: PointsTo) {
    m.Keys <= TrackedOnes(vars)
  }

  /** All tracked pointers have a flag. */
  ghost predicate NonZero(vars: Variables, m: PointsTo) {
    forall x :: Tracked(vars, x) ==> FlagsOf(m, x) != {}
  }

  lemma {:induction false} GetRecNonZero(vars: Variables, e: Expr, src: PointsTo)
    requires NonZero(vars, src)
    ensures GetRec(vars, e, src) != {}
  {
    match e
    case Constant(zero) => assert NullPointer in {NullPointer} && IntegerAddress in {IntegerAddress};
    case Typecast(op) => GetRecNonZero(vars, op, src);
    case Uninitialized => assert UninitializedKind in GetRec(vars, e, src);
    case AddressOf(Symbol(x)) =>
      assert (if x in vars.locals then DynamicLocal else StaticLifetime) in GetRec(vars, e, src);
    case AddressOf(Index(Symbol(_))) => assert UsesOffset in GetRec(vars, e, src);
    case Plus(operands) =>
      assert UsesOffset in GetRec(vars, e, src) || UnknownKind in GetRec(vars, e, src);
    case Minus(_, _) =>
      assert UsesOffset in GetRec(vars, e, src) || UnknownKind in GetRec(vars, e, src);
    case SideEffect(allocate) => assert (if allocate then DynamicHeap else UnknownKind) in GetRec(vars, e, src);
    case Symbol(x) => assert !Tracked(vars, x) ==> UnknownKind in GetRec(vars, e, src);
    case _ => assert UnknownKind in GetRec(vars, e, src);
  }

  lemma TransferKeeps(vars: Variables, a: Action, src: PointsTo)
    ensures TrackedOnly(vars, src) ==> TrackedOnly(vars, Transfer(vars, a, src))
    ensures NonZero(vars, src) ==> NonZero(vars, Transfer(vars, a, src))
  {
    match Assignment(a)
    case None =>
    case Some(p) =>
      AssignLhsIs(vars, p.0, p.1, src, src, "");
      forall x | Tracked(vars, x)
        ensures NonZero(vars, src) ==> FlagsOf(Transfer(vars, a, src), x) != {}
      {
        AssignLhsIs(vars, p.0, p.1, src, src, x);
        if NonZero(vars, src) {
          GetRecNonZero(vars, p.1, src);
        }
      }
  }

  lemma TransferIsSound(vars: Variables, a: Action, src: PointsTo, env: string -> Pointer, env': string -> Pointer)
    requires SoundAction(vars, a) && DescribesAll(vars, src, env) && Executes(vars, a, env, env')
    ensures DescribesAll(vars, Transfer(vars, a, src), env')
  {
    ExecutesAssignment(vars, a, env, env');
    match Assignment(a)
    case None =>
    case Some(p) => DefiniteAssignmentIsSound(vars, p.0, p.1, src, env, env');
  }

  /** The assignment leaves no choice of target and is not of a misread expression. */
  ghost predicate SoundAction(vars: Variables, a: Action) {
    Assignment(a).Some? ==>
      DefiniteTarget(vars, Assignment(a).value.0) && !Misread(vars, Assignment(a).value.1)
  }

  /** The flags behind a node are all in front of its successors. */
  ghost predicate Settled(p: Program, actions: seq<Action>, vars: Variables, infos: seq<PointsTo>, l: nat) {
    && |actions| == |p| == |infos| && l < |p|
    && forall s :: s in CfgSuccessors(p, l) ==> s < |p| && Below(Transfer(vars, actions[l], infos[l]), infos[s])
  }

  /** The entry is known about, and only nodes never visited nor queued are sure to be without flags. */
  ghost predicate Queued(
    p: Program, vars: Variables, infos: seq<PointsTo>, visited: set<nat>, queue: seq<nat>)
  {
    && |infos| == |p| > 0 && Sorted(queue) && (0 in visited || 0 in queue)
    && (forall l :: 0 <= l < |p| ==> TrackedOnly(vars, infos[l]))
    && (forall k :: 0 <= k < |queue| ==> queue[k] < |p|)
    && (forall x :: Tracked(vars, x) ==> UnknownKind in FlagsOf(infos[0], x))
    && (forall l: nat :: l < |p| && l !in visited && l !in queue ==> NoFlags(infos[l]))
  }

  ghost predicate NoFlags(m: PointsTo) {
    forall x :: FlagsOf(m, x) == {}
  }

  ghost predicate SettledExcept(
    p: Program, actions: seq<Action>, vars: Variables, infos: seq<PointsTo>, visited: set<nat>, queue: seq<nat>,
    except: set<nat>)
  {
    forall l: nat :: l in visited && l !in queue && l !in except ==> Settled(p, actions, vars, infos, l)
  }

  /** What holds whenever the queue is looked at: what is visited is settled or queued. */
  ghost predicate QueueInvariant(
    p: Program, actions: seq<Action>, vars: Variables, infos: seq<PointsTo>, visited: set<nat>, queue: seq<nat>)
  {
    && WellFormed(p) && |actions| == |p|
    && Queued(p, vars, infos, visited, queue)
    && SettledExcept(p, actions, vars, infos, visited, queue, {})
  }

  /** A path from the entry in the graph the analysis builds. */
  ghost predicate ReachesInCfg(p: Program, path: seq<nat>) {
    && path != [] && path[0] == 0
    && (forall i :: 0 <= i < |path| ==> path[i] < |p|)
    && forall i :: 0 < i < |path| ==> path[i] in CfgSuccessors(p, path[i - 1])
  }

  /** With a tracked pointer, flags reach every node on every path, so each of them is visited and settled. */
  lemma {:induction false} ReachableIsVisited(
    p: Program, actions: seq<Action>, vars: Variables, infos: seq<PointsTo>, visited: set<nat>, path: seq<nat>, i: nat)
    requires QueueInvariant(p, actions, vars, infos, visited, []) && TrackedOnes(vars) != {}
    requires ReachesInCfg(p, path) && i < |path|
    ensures path[i] in visited && Settled(p, actions, vars, infos, path[i]) && NonZero(vars, infos[path[i]])
  {
    if i > 0 {
      ReachableIsVisited(p, actions, vars, infos, visited, path, i - 1);
      TransferKeeps(vars, actions[path[i - 1]], infos[path[i - 1]]);
      assert path[i] in CfgSuccessors(p, path[i - 1]);
      assert Below(Transfer(vars, actions[path[i - 1]], infos[path[i - 1]]), infos[path[i]]);
    }
    var x :| x in TrackedOnes(vars);
    assert FlagsOf(infos[path[i]], x) != {};
  }

  /**
   A run of the function, as locations and the values of its pointers. It may go wherever the graph does, so past
   assumptions that never hold as well.
   */
  ghost predicate Run(p: Program, actions: seq<Action>, vars: Variables, run: seq<(nat, string -> Pointer)>) {
    && |actions| == |p| && run != [] && run[0].0 == 0
    && (forall i :: 0 <= i < |run| ==> run[i].0 < |p|)
    && forall i :: 0 < i < |run| ==>
      run[i].0 in CfgSuccessors(p, run[i - 1].0) && Executes(vars, actions[run[i - 1].0], run[i - 1].1, run[i].1)
  }

  /** What the run has executed before its step `i` is treated soundly. */
  ghost predicate SoundSoFar(actions: seq<Action>, vars: Variables, run: seq<(nat, string -> Pointer)>, i: nat)
    requires i <= |run| && forall j :: 0 <= j < |run| ==> run[j].0 < |actions|
  {
    forall j :: 0 <= j < i ==> SoundAction(vars, actions[run[j].0])
  }

  function Locations(run: seq<(nat, string -> Pointer)>): seq<nat> {
    seq(|run|, i requires 0 <= i < |run| => run[i].0)
  }

  lemma RunIsPath(p: Program, actions: seq<Action>, vars: Variables, run: seq<(nat, string -> Pointer)>)
    requires WellFormed(p) && Run(p, actions, vars, run)
    ensures ReachesInCfg(p, Locations(run))
  {
    assert forall k :: 0 <= k < |run| ==> Locations(run)[k] == run[k].0;
  }

  lemma MoreFlagsDescribe(vars: Variables, a: PointsTo, b: PointsTo, env: string -> Pointer)
    requires Below(a, b) && DescribesAll(vars, a, env)
    ensures DescribesAll(vars, b, env)
  {
    forall x | Tracked(vars, x)
      ensures Describes(FlagsOf(b, x), env(x))
    {
      assert FlagsOf(a, x) <= FlagsOf(b, x);
    }
  }

  /** On a run, what is behind each instruction is known at the next. */
  lemma RunIsSettled(
    p: Program, actions: seq<Action>, vars: Variables, infos: seq<PointsTo>, visited: set<nat>,
    run: seq<(nat, string -> Pointer)>, i: nat)
    requires QueueInvariant(p, actions, vars, infos, visited, []) && TrackedOnes(vars) != {}
    requires Run(p, actions, vars, run) && 0 < i < |run|
    ensures |infos| == |p| && Below(Transfer(vars, actions[run[i - 1].0], infos[run[i - 1].0]), infos[run[i].0])
  {
    var path := Locations(run);
    RunIsPath(p, actions, vars, run);
    ReachableIsVisited(p, actions, vars, infos, visited, path, i - 1);
    assert path[i] in CfgSuccessors(p, path[i - 1]);
  }

  lemma NothingTracked(vars: Variables, flags: PointsTo, env: string -> Pointer)
    requires TrackedOnes(vars) == {}
    ensures DescribesAll(vars, flags, env)
  {
    assert forall x :: Tracked(vars, x) ==> x in TrackedOnes(vars);
  }

  lemma StepIsDescribed(
    vars: Variables, a: Action, src: PointsTo, dest: PointsTo, env: string -> Pointer, env': string -> Pointer)
    requires SoundAction(vars, a) && DescribesAll(vars, src, env) && Executes(vars, a, env, env')
    requires Below(Transfer(vars, a, src), dest)
    ensures DescribesAll(vars, dest, env')
  {
    TransferIsSound(vars, a, src, env, env');
    MoreFlagsDescribe(vars, Transfer(vars, a, src), dest, env');
  }

  /** At the fixed point, flags are right about every tracked pointer at each step of every run. */
  lemma {:induction false} FixedPointIsSound(
    p: Program, actions: seq<Action>, vars: Variables, infos: seq<PointsTo>, visited: set<nat>,
    run: seq<(nat, string -> Pointer)>, i: nat)
    requires QueueInvariant(p, actions, vars, infos, visited, [])
    requires Run(p, actions, vars, run) && i < |run| && SoundSoFar(actions, vars, run, i)
    ensures DescribesAll(vars, infos[run[i].0], run[i].1)
  {
    if TrackedOnes(vars) == {} {
      NothingTracked(vars, infos[run[i].0], run[i].1);
    } else if i > 0 {
      FixedPointIsSound(p, actions, vars, infos, visited, run, i - 1);
      RunIsSettled(p, actions, vars, infos, visited, run, i);
      var l := run[i - 1].0;
      StepIsDescribed(vars, actions[l], infos[l], infos[run[i].0], run[i - 1].1, run[i].1);
    }
  }

  // --- flags are carried along paths -----------------------------------------------------------------

  ghost predicate PathTo(p: Program, path: seq<nat>, l: nat) {
    ReachesInCfg(p, path) && path[|path| - 1] == l
  }

  /** The flags in front of the end of a path, if there were no other. */
  function Along(actions: seq<Action>, vars: Variables, path: seq<nat>): PointsTo
    requires path != [] && forall i :: 0 <= i < |path| ==> path[i] < |actions|
  {
    var n := |path| - 1;
    if n == 0 then map x | x in TrackedOnes(vars) :: {UnknownKind}
    else Transfer(vars, actions[path[n - 1]], Along(actions, vars, path[..n]))
  }

  /** Some path carries the flag of the variable to the node. */
  ghost predicate Carried(p: Program, actions: seq<Action>, vars: Variables, l: nat, x: string, f: Flag)
    requires |actions| == |p|
  {
    exists path: seq<nat> :: PathTo(p, path, l) && f in FlagsOf(Along(actions, vars, path), x)
  }

  /** Some path carries it past the node. */
  ghost predicate CarriedBehind(p: Program, actions: seq<Action>, vars: Variables, l: nat, x: string, f: Flag)
    requires |actions| == |p| && l < |p|
  {
    exists path: seq<nat> ::
      PathTo(p, path, l) && f in FlagsOf(Transfer(vars, actions[l], Along(actions, vars, path)), x)
  }

  lemma PathGoesOn(p: Program, path: seq<nat>, l: nat, s: nat)
    requires PathTo(p, path, l) && s in CfgSuccessors(p, l) && s < |p|
    ensures PathTo(p, path + [s], s)
  {
  }

  lemma AlongGoesOn(actions: seq<Action>, vars: Variables, path: seq<nat>, s: nat)
    requires path != [] && (forall i :: 0 <= i < |path| ==> path[i] < |actions|) && s < |actions|
    ensures Along(actions, vars, path + [s]) == Transfer(vars, actions[path[|path| - 1]], Along(actions, vars, path))
  {
    assert (path + [s])[..|path|] == path;
  }

  lemma CarriedOn(p: Program, actions: seq<Action>, vars: Variables, l: nat, s: nat, x: string, f: Flag)
    requires |actions| == |p| && l < |p| && CarriedBehind(p, actions, vars, l, x, f)
    requires s in CfgSuccessors(p, l) && s < |p|
    ensures Carried(p, actions, vars, s, x, f)
  {
    var path: seq<nat> :|
      PathTo(p, path, l) && f in FlagsOf(Transfer(vars, actions[l], Along(actions, vars, path)), x);
    PathGoesOn(p, path, l, s);
    AlongGoesOn(actions, vars, path, s);
  }

  /** The variable a flag of `x` behind an instruction comes from, unless the instruction gives the flag itself. */
  function Origin(vars: Variables, a: Action, x: string): string {
    if Assignment(a).Some? && Tracked(vars, x) && Some(x) in Targets(Assignment(a).value.0)
      && Copied(vars, Assignment(a).value.1).Some?
    then Copied(vars, Assignment(a).value.1).value
    else x
  }

  /** Each flag behind an instruction is there in any state, or in each that has one flag of one variable. */
  lemma FlagComesFrom(vars: Variables, a: Action, src: PointsTo, src': PointsTo, x: string, f: Flag)
    requires f in FlagsOf(Transfer(vars, a, src), x)
    ensures
      var y := Origin(vars, a, x);
      f in FlagsOf(Transfer(vars, a, src'), x) || (f in FlagsOf(src, y) && f !in FlagsOf(src', y))
  {
    match Assignment(a)
    case None =>
    case Some(q) =>
      AssignLhsIs(vars, q.0, q.1, src, src, x);
      AssignLhsIs(vars, q.0, q.1, src', src', x);
      FlagsSplit(vars, q.1, src);
      FlagsSplit(vars, q.1, src');
  }

  /** All flags are carried to where they are, and what is queued can be got to. */
  ghost predicate Grounded(
    p: Program, actions: seq<Action>, vars: Variables, infos: seq<PointsTo>, queue: seq<nat>)
  {
    && |actions| == |p| == |infos|
    && (forall l: nat, x, f :: l < |p| && f in FlagsOf(infos[l], x) ==> Carried(p, actions, vars, l, x, f))
    && (forall l :: l in queue ==> CanReach(p, l))
  }

  ghost predicate CanReach(p: Program, l: nat) {
    exists path: seq<nat> :: PathTo(p, path, l)
  }

  ghost predicate GroundedBehind(p: Program, actions: seq<Action>, vars: Variables, l: nat, dest: PointsTo)
    requires |actions| == |p| && l < |p|
  {
    && CanReach(p, l)
    && forall x, f :: f in FlagsOf(dest, x) ==> CarriedBehind(p, actions, vars, l, x, f)
  }

  lemma GroundedFlag(
    p: Program, actions: seq<Action>, vars: Variables, infos: seq<PointsTo>, l: nat, lead: seq<nat>, x: string, f: Flag)
    requires |actions| == |p| == |infos| && PathTo(p, lead, l)
    requires forall y :: f in FlagsOf(infos[l], y) ==> Carried(p, actions, vars, l, y, f)
    requires f in FlagsOf(Transfer(vars, actions[l], infos[l]), x)
    ensures CarriedBehind(p, actions, vars, l, x, f)
  {
    var a := actions[l];
    var y := Origin(vars, a, x);
    FlagComesFrom(vars, a, infos[l], Along(actions, vars, lead), x, f);
    if f !in FlagsOf(Transfer(vars, a, Along(actions, vars, lead)), x) {
      var path: seq<nat> :| PathTo(p, path, l) && f in FlagsOf(Along(actions, vars, path), y);
      FlagComesFrom(vars, a, infos[l], Along(actions, vars, path), x, f);
    }
  }

  lemma BehindIsGrounded(
    p: Program, actions: seq<Action>, vars: Variables, infos: seq<PointsTo>, queue: seq<nat>, l: nat)
    requires Grounded(p, actions, vars, infos, queue) && l in queue && l < |p|
    ensures GroundedBehind(p, actions, vars, l, Transfer(vars, actions[l], infos[l]))
    ensures l == queue[0] ==> Grounded(p, actions, vars, infos, queue[1..])
  {
    var lead: seq<nat> :| PathTo(p, lead, l);
    forall x, f | f in FlagsOf(Transfer(vars, actions[l], infos[l]), x)
      ensures CarriedBehind(p, actions, vars, l, x, f)
    {
      GroundedFlag(p, actions, vars, infos, l, lead, x, f);
    }
    assert forall m :: m in queue[1..] ==> m in queue;
  }

  lemma MergeStaysGrounded(
    p: Program, actions: seq<Action>, vars: Variables, infos: seq<PointsTo>, queue: seq<nat>, l: nat, s: nat,
    dest: PointsTo)
    requires Grounded(p, actions, vars, infos, queue) && l < |p| && GroundedBehind(p, actions, vars, l, dest)
    requires s in CfgSuccessors(p, l) && s < |p| && Sorted(queue)
    ensures Grounded(p, actions, vars, infos[s := Joined(infos[s], dest)], Insert(queue, s))
  {
    var infos' := infos[s := Joined(infos[s], dest)];
    JoinedIsUnion(infos[s], dest);
    forall m: nat, x, f | m < |p| && f in FlagsOf(infos'[m], x)
      ensures Carried(p, actions, vars, m, x, f)
    {
      if f !in FlagsOf(infos[m], x) {
        CarriedOn(p, actions, vars, l, s, x, f);
      }
    }
    var path: seq<nat> :| PathTo(p, path, l);
    PathGoesOn(p, path, l, s);
  }

  lemma StartIsGrounded(p: Program, actions: seq<Action>, vars: Variables, infos: seq<PointsTo>)
    requires WellFormed(p) && |actions| == |p| == |infos|
    requires infos[0] == map x | x in TrackedOnes(vars) :: {UnknownKind}
    requires forall l :: 0 < l < |p| ==> infos[l] == map[]
    ensures Grounded(p, actions, vars, infos, [0])
  {
    assert PathTo(p, [0], 0);
    forall l: nat, x, f | l < |p| && f in FlagsOf(infos[l], x)
      ensures Carried(p, actions, vars, l, x, f)
    {
      assert f in FlagsOf(Along(actions, vars, [0]), x);
    }
  }

  lemma {:induction false} AlongIsTracked(actions: seq<Action>, vars: Variables, path: seq<nat>)
    requires path != [] && forall i :: 0 <= i < |path| ==> path[i] < |actions|
    ensures TrackedOnly(vars, Along(actions, vars, path))
  {
    var n := |path| - 1;
    if n > 0 {
      AlongIsTracked(actions, vars, path[..n]);
      TransferKeeps(vars, actions[path[n - 1]], Along(actions, vars, path[..n]));
    }
  }

  lemma TransferGrows(vars: Variables, a: Action, src: PointsTo, more: PointsTo)
    requires Below(src, more)
    ensures Below(Transfer(vars, a, src), Transfer(vars, a, more))
  {
    forall x
      ensures FlagsOf(Transfer(vars, a, src), x) <= FlagsOf(Transfer(vars, a, more), x)
    {
      match Assignment(a)
      case None => assert FlagsOf(src, x) <= FlagsOf(more, x);
      case Some(q) =>
        AssignLhsIs(vars, q.0, q.1, src, src, x);
        AssignLhsIs(vars, q.0, q.1, more, more, x);
        FlagsSplit(vars, q.1, src);
        FlagsSplit(vars, q.1, more);
        assert FlagsOf(src, x) <= FlagsOf(more, x);
        if Copied(vars, q.1).Some? {
          assert FlagsOf(src, Copied(vars, q.1).value) <= FlagsOf(more, Copied(vars, q.1).value);
        }
    }
  }

  lemma StartReaches(p: Program, path: seq<nat>)
    requires ReachesInCfg(p, path) && |path| > 1
    ensures ReachesInCfg(p, path[..|path| - 1])
  {
    var before := path[..|path| - 1];
    forall i | 0 < i < |before|
      ensures before[i] in CfgSuccessors(p, before[i - 1])
    {
      assert path[i] in CfgSuccessors(p, path[i - 1]);
    }
  }

  lemma EntryIsBelow(vars: Variables, actions: seq<Action>, entry: PointsTo, path: seq<nat>)
    requires |path| == 1 && path[0] < |actions| && forall x :: Tracked(vars, x) ==> UnknownKind in FlagsOf(entry, x)
    ensures Below(Along(actions, vars, path), entry)
  {
    forall x
      ensures FlagsOf(Along(actions, vars, path), x) <= FlagsOf(entry, x)
    {
      assert x in TrackedOnes(vars) ==> Tracked(vars, x);
    }
  }

  /** Whatever a path over settled nodes carries is there. */
  lemma {:induction false} PathIsBelow(
    p: Program, actions: seq<Action>, vars: Variables, infos: seq<PointsTo>, path: seq<nat>)
    requires |actions| == |p| == |infos| && ReachesInCfg(p, path)
    requires forall x :: Tracked(vars, x) ==> UnknownKind in FlagsOf(infos[0], x)
    requires forall i :: 0 <= i < |path| ==> Settled(p, actions, vars, infos, path[i])
    ensures Below(Along(actions, vars, path), infos[path[|path| - 1]])
    decreases |path|
  {
    var n := |path| - 1;
    if n > 0 {
      var before := path[..n];
      StartReaches(p, path);
      PathIsBelow(p, actions, vars, infos, before);
      assert before + [path[n]] == path && path[n] in CfgSuccessors(p, path[n - 1]);
      BelowGoesOn(p, actions, vars, infos, before, path[n]);
    } else {
      EntryIsBelow(vars, actions, infos[0], path);
    }
  }

  lemma BelowGoesOn(
    p: Program, actions: seq<Action>, vars: Variables, infos: seq<PointsTo>, path: seq<nat>, s: nat)
    requires |actions| == |p| == |infos| && ReachesInCfg(p, path) && s < |p|
    requires Below(Along(actions, vars, path), infos[path[|path| - 1]])
    requires s in CfgSuccessors(p, path[|path| - 1]) && Settled(p, actions, vars, infos, path[|path| - 1])
    ensures Below(Along(actions, vars, path + [s]), infos[s])
  {
    var l := path[|path| - 1];
    AlongGoesOn(actions, vars, path, s);
    TransferGrows(vars, actions[l], Along(actions, vars, path), infos[l]);
    assert Below(Transfer(vars, actions[l], infos[l]), infos[s]);
  }

  /** At the fixed point, a pointer has a flag at a node exactly if some path carries it there. */
  lemma FixedPointIsExact(
    p: Program, actions: seq<Action>, vars: Variables, infos: seq<PointsTo>, visited: set<nat>, l: nat, x: string,
    f: Flag)
    requires QueueInvariant(p, actions, vars, infos, visited, []) && Grounded(p, actions, vars, infos, [])
    requires l < |p|
    ensures f in FlagsOf(infos[l], x) <==> Carried(p, actions, vars, l, x, f)
  {
    if Carried(p, actions, vars, l, x, f) {
      var path: seq<nat> :| PathTo(p, path, l) && f in FlagsOf(Along(actions, vars, path), x);
      AlongIsTracked(actions, vars, path);
      assert x in TrackedOnes(vars);
      forall i | 0 <= i < |path|
        ensures Settled(p, actions, vars, infos, path[i])
      {
        ReachableIsVisited(p, actions, vars, infos, visited, path, i);
      }
      PathIsBelow(p, actions, vars, infos, path);
    }
  }

  // --- carried flags are shown by runs -----------------------------------------------------------------

  /** Nothing is assigned that is misread. */
  predicate NothingMisread(vars: Variables, actions: seq<Action>) {
    forall l :: 0 <= l < |actions| && Assignment(actions[l]).Some? ==> !Misread(vars, Assignment(actions[l]).value.1)
  }

  lemma {:induction false} HasTarget(lhs: Expr) returns (t: Option<string>)
    ensures t in Targets(lhs)
  {
    match lhs
    case Symbol(x) => t := Some(x);
    case Index(base) => t := HasTarget(base);
    case Member(structOp) => t := HasTarget(structOp);
    case Typecast(op) => t := HasTarget(op);
    case If(trueCase, _) => t := HasTarget(trueCase);
    case _ => t := None;
  }

  lemma ExecutesTo(
    vars: Variables, a: Action, env: string -> Pointer, target: Option<string>, v: Pointer)
    returns (env': string -> Pointer)
    requires Assignment(a).Some? && target in Targets(Assignment(a).value.0)
    requires Evaluates(vars, env, Assignment(a).value.1, v)
    ensures Executes(vars, a, env, env') && forall x :: env'(x) == if target == Some(x) then v else env(x)
  {
    env' := (x: string) => if target == Some(x) then v else env(x);
    assert Assigned(vars, env, env', target, v);
    ExecutesAssignment(vars, a, env, env');
  }

  lemma OriginIsTracked(vars: Variables, a: Action, x: string)
    requires Tracked(vars, x)
    ensures Tracked(vars, Origin(vars, a, x))
  {
    if Assignment(a).Some? {
      FlagsSplit(vars, Assignment(a).value.1, map[]);
    }
  }

  /** A value of `x` that shows the flag can come out of the instruction. */
  lemma StepShows(
    vars: Variables, a: Action, src: PointsTo, env: string -> Pointer, x: string, f: Flag)
    returns (env': string -> Pointer)
    requires Assignment(a).Some? ==> !Misread(vars, Assignment(a).value.1)
    requires f in FlagsOf(Transfer(vars, a, src), x) && f != UnknownKind && Tracked(vars, x)
    requires f in FlagsOf(src, Origin(vars, a, x)) ==> Shows(env(Origin(vars, a, x)), f)
    ensures Executes(vars, a, env, env') && Shows(env'(x), f)
  {
    match Assignment(a)
    case None =>
      env' := env;
      ExecutesAssignment(vars, a, env, env');
    case Some(q) =>
      AssignLhsIs(vars, q.0, q.1, src, src, x);
      FlagsSplit(vars, q.1, src);
      if Some(x) in Targets(q.0) {
        var v := ValueShows(vars, env, q.1, f);
        env' := ExecutesTo(vars, a, env, Some(x), v);
      } else {
        var t := HasTarget(q.0);
        var v := HasValue(vars, env, q.1);
        env' := ExecutesTo(vars, a, env, t, v);
      }
  }

  lemma StepExists(vars: Variables, a: Action, env: string -> Pointer) returns (env': string -> Pointer)
    ensures Executes(vars, a, env, env')
  {
    match Assignment(a)
    case None =>
      env' := env;
      ExecutesAssignment(vars, a, env, env');
    case Some(q) =>
      var t := HasTarget(q.0);
      var v := HasValue(vars, env, q.1);
      env' := ExecutesTo(vars, a, env, t, v);
  }

  lemma NextValue(
    vars: Variables, a: Action, src: PointsTo, env: string -> Pointer, x: string, f: Flag)
    returns (env': string -> Pointer)
    requires Assignment(a).Some? ==> !Misread(vars, Assignment(a).value.1)
    requires f != UnknownKind && Tracked(vars, x)
    requires f in FlagsOf(src, Origin(vars, a, x)) ==> Shows(env(Origin(vars, a, x)), f)
    ensures Executes(vars, a, env, env') && (f in FlagsOf(Transfer(vars, a, src), x) ==> Shows(env'(x), f))
  {
    if f in FlagsOf(Transfer(vars, a, src), x) {
      env' := StepShows(vars, a, src, env, x, f);
    } else {
      env' := StepExists(vars, a, env);
    }
  }

  /** A run along the path whose last value of the variable shows the flag, if the path carries it. */
  ghost predicate RunAlong(
    p: Program, actions: seq<Action>, vars: Variables, path: seq<nat>, run: seq<(nat, string -> Pointer)>, x: string,
    f: Flag)
    requires |actions| == |p| && ReachesInCfg(p, path)
  {
    && Run(p, actions, vars, run) && Locations(run) == path
    && (f in FlagsOf(Along(actions, vars, path), x) ==> Shows(run[|run| - 1].1(x), f))
  }

  lemma RunAlongGoesOn(
    p: Program, actions: seq<Action>, vars: Variables, path: seq<nat>, s: nat, run: seq<(nat, string -> Pointer)>,
    x: string, f: Flag)
    returns (longer: seq<(nat, string -> Pointer)>)
    requires |actions| == |p| && ReachesInCfg(p, path) && ReachesInCfg(p, path + [s]) && NothingMisread(vars, actions)
    requires Tracked(vars, x) && f != UnknownKind
    requires RunAlong(p, actions, vars, path, run, Origin(vars, actions[path[|path| - 1]], x), f)
    ensures RunAlong(p, actions, vars, path + [s], longer, x, f)
  {
    var n := |path|;
    var l := path[n - 1];
    assert Locations(run)[n - 1] == run[n - 1].0 == l;
    assert (path + [s])[n - 1] == l && (path + [s])[n] == s;
    var env' := NextValue(vars, actions[l], Along(actions, vars, path), run[n - 1].1, x, f);
    longer := run + [(s, env')];
    RunGoesOn(p, actions, vars, run, s, env');
    LocationsGoOn(run, s, env');
    AlongGoesOn(actions, vars, path, s);
  }

  lemma StartOfRun(
    p: Program, actions: seq<Action>, vars: Variables, path: seq<nat>, x: string, f: Flag)
    returns (run: seq<(nat, string -> Pointer)>)
    requires |actions| == |p| && ReachesInCfg(p, path) && |path| == 1 && f != UnknownKind
    ensures RunAlong(p, actions, vars, path, run, x, f)
  {
    run := [(0, _ => Pointer(UninitializedKind, false))];
    assert path == [0];
  }

  /** Each flag a path carries, but the unknown bit, is shown by a run along the path. */
  lemma {:induction false} PathIsRun(
    p: Program, actions: seq<Action>, vars: Variables, path: seq<nat>, x: string, f: Flag)
    returns (run: seq<(nat, string -> Pointer)>)
    requires |actions| == |p| && ReachesInCfg(p, path) && NothingMisread(vars, actions)
    requires Tracked(vars, x) && f != UnknownKind
    ensures RunAlong(p, actions, vars, path, run, x, f)
    decreases |path|
  {
    var n := |path| - 1;
    if n == 0 {
      run := StartOfRun(p, actions, vars, path, x, f);
    } else {
      var before, y := path[..n], Origin(vars, actions[path[n - 1]], x);
      OriginIsTracked(vars, actions[path[n - 1]], x);
      StartReaches(p, path);
      run := PathIsRun(p, actions, vars, before, y, f);
      assert before + [path[n]] == path;
      run := RunAlongGoesOn(p, actions, vars, before, path[n], run, x, f);
    }
  }

  lemma RunGoesOn(
    p: Program, actions: seq<Action>, vars: Variables, run: seq<(nat, string -> Pointer)>, s: nat,
    env': string -> Pointer)
    requires Run(p, actions, vars, run) && s < |p| && s in CfgSuccessors(p, run[|run| - 1].0)
    requires Executes(vars, actions[run[|run| - 1].0], run[|run| - 1].1, env')
    ensures Run(p, actions, vars, run + [(s, env')])
  {
    var longer := run + [(s, env')];
    forall i | 0 < i < |longer|
      ensures longer[i].0 in CfgSuccessors(p, longer[i - 1].0)
      ensures Executes(vars, actions[longer[i - 1].0], longer[i - 1].1, longer[i].1)
    {
      assert longer[i - 1] == run[i - 1];
      if i < |run| {
        assert longer[i] == run[i];
      }
    }
  }

  lemma LocationsGoOn(run: seq<(nat, string -> Pointer)>, s: nat, env': string -> Pointer)
    ensures Locations(run + [(s, env')]) == Locations(run) + [s]
  {
  }

  /** The run ends at the node with a value of the variable that shows the flag. */
  ghost predicate ShownBy(
    p: Program, actions: seq<Action>, vars: Variables, run: seq<(nat, string -> Pointer)>, l: nat, x: string, f: Flag)
  {
    Run(p, actions, vars, run) && run[|run| - 1].0 == l && Shows(run[|run| - 1].1(x), f)
  }

  lemma CarriedIsShown(p: Program, actions: seq<Action>, vars: Variables, l: nat, x: string, f: Flag)
    requires |actions| == |p| && NothingMisread(vars, actions) && f != UnknownKind && Carried(p, actions, vars, l, x, f)
    ensures exists run :: ShownBy(p, actions, vars, run, l, x, f)
  {
    var path: seq<nat> :| PathTo(p, path, l) && f in FlagsOf(Along(actions, vars, path), x);
    AlongIsTracked(actions, vars, path);
    assert x in TrackedOnes(vars);
    var run := PathIsRun(p, actions, vars, path, x, f);
    assert Locations(run)[|run| - 1] == run[|run| - 1].0;
    assert ShownBy(p, actions, vars, run, l, x, f);
  }

  // --- termination ---------------------------------------------------------------------------------

  const ALL_FLAGS: Flags := {
    UnknownKind, UninitializedKind, UsesOffset, DynamicLocal, DynamicHeap, NullPointer, StaticLifetime, IntegerAddress
  }

  lemma AllFlags(f: Flag)
    ensures f in ALL_FLAGS
  {
    match f
    case UnknownKind =>
    case _ =>
  }

  /** Flags that a tracked pointer may still get somewhere. */
  ghost function Missing(vars: Variables, infos: seq<PointsTo>): set<(nat, string, Flag)> {
    set l: nat, x, f |
      l < |infos| && x in TrackedOnes(vars) && f in ALL_FLAGS && f !in FlagsOf(infos[l], x) :: (l, x, f)
  }

  lemma MergeUsesUp(vars: Variables, infos: seq<PointsTo>, s: nat, b: PointsTo)
    requires s < |infos| && TrackedOnly(vars, b)
    ensures Missing(vars, infos[s := Joined(infos[s], b)]) <= Missing(vars, infos)
    ensures !Below(b, infos[s]) ==> Missing(vars, infos[s := Joined(infos[s], b)]) < Missing(vars, infos)
  {
    var infos' := infos[s := Joined(infos[s], b)];
    JoinedIsUnion(infos[s], b);
    if !Below(b, infos[s]) {
      var x :| !(FlagsOf(b, x) <= FlagsOf(infos[s], x));
      var f :| f in FlagsOf(b, x) && f !in FlagsOf(infos[s], x);
      assert x in b && x in TrackedOnes(vars);
      AllFlags(f);
      assert (s, x, f) in Missing(vars, infos) && (s, x, f) !in Missing(vars, infos');
    }
  }

  // --- one node ----------------------------------------------------------------------------------

  /** The flags behind the visited node are in front of its first `i` successors, or it is queued again. */
  ghost predicate Passed(
    p: Program, actions: seq<Action>, vars: Variables, infos: seq<PointsTo>, queue: seq<nat>, loc: nat,
    dest: PointsTo, i: nat)
    requires loc < |p| && |actions| == |p| == |infos| && i <= |CfgSuccessors(p, loc)|
  {
    loc in queue || (
      && dest == Transfer(vars, actions[loc], infos[loc])
      && forall j :: 0 <= j < i ==>
           CfgSuccessors(p, loc)[j] < |p| && Below(dest, infos[CfgSuccessors(p, loc)[j]]))
  }

  ghost predicate Visiting(
    p: Program, actions: seq<Action>, vars: Variables, infos: seq<PointsTo>, visited: set<nat>, queue: seq<nat>,
    loc: nat, dest: PointsTo, i: nat)
  {
    && WellFormed(p) && |actions| == |p|
    && Queued(p, vars, infos, visited, queue)
    && SettledExcept(p, actions, vars, infos, visited, queue, {loc})
    && loc in visited && loc < |p| && TrackedOnly(vars, dest) && i <= |CfgSuccessors(p, loc)|
    && Passed(p, actions, vars, infos, queue, loc, dest, i)
  }

  lemma VisitStarts(
    p: Program, actions: seq<Action>, vars: Variables, infos: seq<PointsTo>, visited: set<nat>, queue: seq<nat>)
    requires QueueInvariant(p, actions, vars, infos, visited, queue) && queue != []
    ensures queue[0] < |p|
    ensures Visiting(p, actions, vars, infos, visited + {queue[0]}, queue[1..], queue[0],
                     Transfer(vars, actions[queue[0]], infos[queue[0]]), 0)
  {
    var loc := queue[0];
    assert queue == [loc] + queue[1..];
    TransferKeeps(vars, actions[loc], infos[loc]);
  }

  lemma VisitEnds(
    p: Program, actions: seq<Action>, vars: Variables, infos: seq<PointsTo>, visited: set<nat>, queue: seq<nat>,
    loc: nat, dest: PointsTo)
    requires loc < |p| && Visiting(p, actions, vars, infos, visited, queue, loc, dest, |CfgSuccessors(p, loc)|)
    ensures QueueInvariant(p, actions, vars, infos, visited, queue)
  {
  }

  lemma SettledStays(
    p: Program, actions: seq<Action>, vars: Variables, infos: seq<PointsTo>, s: nat, dest: PointsTo, l: nat)
    requires Settled(p, actions, vars, infos, l) && s < |infos| && l != s
    ensures Settled(p, actions, vars, infos[s := Joined(infos[s], dest)], l)
  {
    var infos' := infos[s := Joined(infos[s], dest)];
    JoinedIsUnion(infos[s], dest);
    forall t | t in CfgSuccessors(p, l)
      ensures t < |p| && Below(Transfer(vars, actions[l], infos'[l]), infos'[t])
    {
      assert Below(Transfer(vars, actions[l], infos[l]), infos[t]);
    }
  }

  lemma QueuedStep(
    p: Program, vars: Variables, infos: seq<PointsTo>, visited: set<nat>, queue: seq<nat>, s: nat, dest: PointsTo)
    requires Queued(p, vars, infos, visited, queue) && s < |p| && TrackedOnly(vars, dest)
    ensures Queued(p, vars, infos[s := Joined(infos[s], dest)], visited, Insert(queue, s))
  {
    JoinedIsUnion(infos[s], dest);
    var queue' := Insert(queue, s);
    forall k | 0 <= k < |queue'|
      ensures queue'[k] < |p|
    {
      assert queue'[k] in queue';
    }
  }

  lemma PassedStep(
    p: Program, actions: seq<Action>, vars: Variables, infos: seq<PointsTo>, queue: seq<nat>, loc: nat,
    dest: PointsTo, i: nat)
    requires loc < |p| && |actions| == |p| == |infos| && i < |CfgSuccessors(p, loc)| && Sorted(queue)
    requires Passed(p, actions, vars, infos, queue, loc, dest, i)
    requires CfgSuccessors(p, loc)[i] < |p|
    ensures
      var s := CfgSuccessors(p, loc)[i];
      Passed(p, actions, vars, infos[s := Joined(infos[s], dest)], Insert(queue, s), loc, dest, i + 1)
  {
    var s := CfgSuccessors(p, loc)[i];
    JoinedIsUnion(infos[s], dest);
    if loc !in Insert(queue, s) {
      forall j | 0 <= j < i + 1
        ensures CfgSuccessors(p, loc)[j] < |p|
        ensures Below(dest, infos[s := Joined(infos[s], dest)][CfgSuccessors(p, loc)[j]])
      {
        if j < i {
          assert Below(dest, infos[CfgSuccessors(p, loc)[j]]);
        }
      }
    }
  }

  lemma VisitStep(
    p: Program, actions: seq<Action>, vars: Variables, infos: seq<PointsTo>, visited: set<nat>, queue: seq<nat>,
    loc: nat, dest: PointsTo, i: nat)
    requires loc < |p| && i < |CfgSuccessors(p, loc)|
    requires Visiting(p, actions, vars, infos, visited, queue, loc, dest, i)
    ensures
      var s := CfgSuccessors(p, loc)[i];
      && s < |p|
      && Visiting(
           p, actions, vars, infos[s := Joined(infos[s], dest)], visited,
           if Below(dest, infos[s]) then queue else Insert(queue, s), loc, dest, i + 1)
  {
    CfgInRange(p, loc);
    var s := CfgSuccessors(p, loc)[i];
    assert s in CfgSuccessors(p, loc);
    var infos' := infos[s := Joined(infos[s], dest)];
    if Below(dest, infos[s]) {
      JoinedIsUnion(infos[s], dest);
      assert infos' == infos;
    } else {
      var queue' := Insert(queue, s);
      QueuedStep(p, vars, infos, visited, queue, s, dest);
      PassedStep(p, actions, vars, infos, queue, loc, dest, i);
      forall l: nat | l in visited && l !in queue' && l != loc
        ensures Settled(p, actions, vars, infos', l)
      {
        SettledStays(p, actions, vars, infos, s, dest, l);
      }
    }
  }

  // --- when the queue is empty -----------------------------------------------------------------------

  lemma DoneIsSettled(
    p: Program, actions: seq<Action>, vars: Variables, infos: seq<PointsTo>, visited: set<nat>)
    requires QueueInvariant(p, actions, vars, infos, visited, [])
    ensures TrackedOnes(vars) != {} ==>
      forall path: seq<nat>, i: nat :: ReachesInCfg(p, path) && i < |path| ==>
        path[i] in visited && Settled(p, actions, vars, infos, path[i])
  {
    forall path: seq<nat>, i: nat | TrackedOnes(vars) != {} && ReachesInCfg(p, path) && i < |path|
      ensures path[i] in visited && Settled(p, actions, vars, infos, path[i])
    {
      ReachableIsVisited(p, actions, vars, infos, visited, path, i);
    }
  }

  lemma DoneIsSound(
    p: Program, actions: seq<Action>, vars: Variables, infos: seq<PointsTo>, visited: set<nat>)
    requires QueueInvariant(p, actions, vars, infos, visited, [])
    ensures forall run: seq<(nat, string -> Pointer)>, i: nat ::
      Run(p, actions, vars, run) && i < |run| && SoundSoFar(actions, vars, run, i) ==>
      DescribesAll(vars, infos[run[i].0], run[i].1)
  {
    forall run: seq<(nat, string -> Pointer)>, i: nat | Run(p, actions, vars, run) && i < |run|
      && SoundSoFar(actions, vars, run, i)
      ensures DescribesAll(vars, infos[run[i].0], run[i].1)
    {
      FixedPointIsSound(p, actions, vars, infos, visited, run, i);
    }
  }

  lemma DoneIsExact(
    p: Program, actions: seq<Action>, vars: Variables, infos: seq<PointsTo>, visited: set<nat>)
    requires QueueInvariant(p, actions, vars, infos, visited, []) && Grounded(p, actions, vars, infos, [])
    ensures forall l: nat, x, f :: l < |p| ==> (f in FlagsOf(infos[l], x) <==> Carried(p, actions, vars, l, x, f))
  {
    forall l: nat, x, f | l < |p|
      ensures f in FlagsOf(infos[l], x) <==> Carried(p, actions, vars, l, x, f)
    {
      FixedPointIsExact(p, actions, vars, infos, visited, l, x, f);
    }
  }

  lemma DoneIsShown(p: Program, actions: seq<Action>, vars: Variables, infos: seq<PointsTo>)
    requires Grounded(p, actions, vars, infos, [])
    ensures NothingMisread(vars, actions) ==>
      forall l: nat, x, f :: l < |p| && f in FlagsOf(infos[l], x) && f != UnknownKind ==>
        exists run :: ShownBy(p, actions, vars, run, l, x, f)
  {
    forall l: nat, x, f | NothingMisread(vars, actions) && l < |p| && f in FlagsOf(infos[l], x) && f != UnknownKind
      ensures exists run :: ShownBy(p, actions, vars, run, l, x, f)
    {
      CarriedIsShown(p, actions, vars, l, x, f);
    }
  }

  // --- the analysis ----------------------------------------------------------------------------------

  class BitvectorAnalysis {
    const program: Program
    const actions: seq<Action>
    const vars: Variables
    var locInfos: seq<PointsTo>

    constructor (program: Program, actions: seq<Action>, vars: Variables)
      requires WellFormed(program) && |actions| == |program|
      ensures this.program == program && this.actions == actions && this.vars == vars
      ensures locInfos == seq(|program|, _ => map[])
    {
      this.program, this.actions, this.vars := program, actions, vars;
      locInfos := seq(|program|, _ => map[]);
    }

    /** Every tracked pointer may be anything at the entry. */
    method Seed()
      requires WellFormed(program) && locInfos == seq(|program|, _ => map[])
      modifies this
      ensures |locInfos| == |program| && locInfos[0] == map x | x in TrackedOnes(vars) :: {UnknownKind}
      ensures forall l :: 0 < l < |program| ==> locInfos[l] == map[]
    {
      var todo := vars.locals;
      while todo != {}
        invariant todo <= vars.locals && |locInfos| == |program|
        invariant locInfos[0] == map x | x in TrackedOnes(vars) && x !in todo :: {UnknownKind}
        invariant forall l :: 0 < l < |program| ==> locInfos[l] == map[]
        decreases |todo|
      {
        var x :| x in todo;
        if Tracked(vars, x) {
          locInfos := locInfos[0 := locInfos[0][x := {UnknownKind}]];
        }
        todo := todo - {x};
      }
    }

    /** Merges flags into what is known at a node. */
    method MergeInto(s: nat, dest: PointsTo) returns (changed: bool)
      requires s < |locInfos| && TrackedOnly(vars, dest)
      modifies this
      ensures locInfos == old(locInfos)[s := Joined(old(locInfos)[s], dest)]
      ensures changed <==> !Below(dest, old(locInfos)[s])
      ensures if changed then Missing(vars, locInfos) < Missing(vars, old(locInfos)) else locInfos == old(locInfos)
    {
      MergeUsesUp(vars, locInfos, s, dest);
      var merged;
      merged, changed := MergeFlags(locInfos[s], dest);
      if !changed {
        JoinedIsUnion(locInfos[s], dest);
        assert locInfos[s := merged] == locInfos;
      }
      locInfos := locInfos[s := merged];
    }

    /** Merges what is behind a node into one of its successors, which is queued if it changes. */
    method PropagateTo(loc: nat, i: nat, s: nat, dest: PointsTo, queue: seq<nat>, ghost visited: set<nat>)
      returns (queue': seq<nat>)
      requires loc < |program| && Visiting(program, actions, vars, locInfos, visited, queue, loc, dest, i)
      requires i < |CfgSuccessors(program, loc)| && s == CfgSuccessors(program, loc)[i]
      requires Grounded(program, actions, vars, locInfos, queue) && GroundedBehind(program, actions, vars, loc, dest)
      modifies this
      ensures Grounded(program, actions, vars, locInfos, queue')
      ensures Visiting(program, actions, vars, locInfos, visited, queue', loc, dest, i + 1)
      ensures Missing(vars, locInfos) < Missing(vars, old(locInfos)) || (locInfos == old(locInfos) && queue' == queue)
    {
      VisitStep(program, actions, vars, locInfos, visited, queue, loc, dest, i);
      MergeStaysGrounded(program, actions, vars, locInfos, queue, loc, s, dest);
      var changed := MergeInto(s, dest);
      queue' := if changed then Insert(queue, s) else queue;
    }

    /** Merges what is behind a node into each of its successors; those that change are queued. */
    method Propagate(loc: nat, successors: seq<nat>, dest: PointsTo, queue: seq<nat>, ghost visited: set<nat>)
      returns (queue': seq<nat>)
      requires loc < |program| && Visiting(program, actions, vars, locInfos, visited, queue, loc, dest, 0)
      requires successors == CfgSuccessors(program, loc)
      requires Grounded(program, actions, vars, locInfos, queue) && GroundedBehind(program, actions, vars, loc, dest)
      modifies this
      ensures Grounded(program, actions, vars, locInfos, queue')
      ensures QueueInvariant(program, actions, vars, locInfos, visited, queue')
      ensures Missing(vars, locInfos) < Missing(vars, old(locInfos)) ||
              (Missing(vars, locInfos) == Missing(vars, old(locInfos)) && queue' == queue)
    {
      queue' := queue;
      for i := 0 to |successors|
        invariant Visiting(program, actions, vars, locInfos, visited, queue', loc, dest, i)
        invariant Grounded(program, actions, vars, locInfos, queue')
        invariant Missing(vars, locInfos) < Missing(vars, old(locInfos)) ||
                  (Missing(vars, locInfos) == Missing(vars, old(locInfos)) && queue' == queue)
      {
        queue' := PropagateTo(loc, i, successors[i], dest, queue', visited);
      }
      VisitEnds(program, actions, vars, locInfos, visited, queue', loc, dest);
    }

    /** Visits nodes until no flags change. */
    method Iterate() returns (ghost visited: set<nat>)
      requires WellFormed(program) && |actions| == |program| == |locInfos|
      requires locInfos[0] == map x | x in TrackedOnes(vars) :: {UnknownKind}
      requires forall l :: 0 < l < |program| ==> locInfos[l] == map[]
      modifies this
      ensures QueueInvariant(program, actions, vars, locInfos, visited, [])
      ensures Grounded(program, actions, vars, locInfos, [])
    {
      var cfg := BuildCfg(program);
      StartIsGrounded(program, actions, vars, locInfos);
      var queue := [0];
      visited := {};
      while queue != []
        invariant QueueInvariant(program, actions, vars, locInfos, visited, queue)
        invariant Grounded(program, actions, vars, locInfos, queue)
        decreases Missing(vars, locInfos), |queue|
      {
        queue, visited := VisitNext(cfg, queue, visited);
      }
    }

    /** Visits the first node of the queue. */
    method VisitNext(cfg: seq<seq<nat>>, queue: seq<nat>, ghost visited: set<nat>)
      returns (queue': seq<nat>, ghost visited': set<nat>)
      requires QueueInvariant(program, actions, vars, locInfos, visited, queue) && queue != []
      requires Grounded(program, actions, vars, locInfos, queue)
      requires |cfg| == |program| && forall l :: 0 <= l < |program| ==> cfg[l] == CfgSuccessors(program, l)
      modifies this
      ensures QueueInvariant(program, actions, vars, locInfos, visited', queue')
      ensures Grounded(program, actions, vars, locInfos, queue')
      ensures Missing(vars, locInfos) < Missing(vars, old(locInfos)) ||
              (Missing(vars, locInfos) == Missing(vars, old(locInfos)) && |queue'| < |queue|)
    {
      var loc := queue[0];
      VisitStarts(program, actions, vars, locInfos, visited, queue);
      BehindIsGrounded(program, actions, vars, locInfos, queue, loc);
      var dest := Transfer(vars, actions[loc], locInfos[loc]);
      visited' := visited + {loc};
      queue' := Propagate(loc, cfg[loc], dest, queue[1..], visited');
    }

    /**
     With a tracked pointer, every node control can get to is visited; and the flags are right about every run as
     far as its assignments are sound ones. There are no flags but those that some path carries; if nothing is
     misread, some run shows each of them but the unknown bit.
     */
    method Build() returns (ghost visited: set<nat>)
      requires WellFormed(program) && |actions| == |program| && locInfos == seq(|program|, _ => map[])
      modifies this
      ensures |locInfos| == |program|
      ensures TrackedOnes(vars) != {} ==>
        forall path: seq<nat>, i: nat :: ReachesInCfg(program, path) && i < |path| ==>
          path[i] in visited && Settled(program, actions, vars, locInfos, path[i])
      ensures forall run: seq<(nat, string -> Pointer)>, i: nat ::
        Run(program, actions, vars, run) && i < |run| && SoundSoFar(actions, vars, run, i) ==>
        DescribesAll(vars, locInfos[run[i].0], run[i].1)
      ensures forall l: nat, x, f :: l < |program| ==>
        (f in FlagsOf(locInfos[l], x) <==> Carried(program, actions, vars, l, x, f))
      ensures NothingMisread(vars, actions) ==>
        forall l: nat, x, f :: l < |program| && f in FlagsOf(locInfos[l], x) && f != UnknownKind ==>
          exists run :: ShownBy(program, actions, vars, run, l, x, f)
    {
      Seed();
      visited := Iterate();
      DoneIsSettled(program, actions, vars, locInfos, visited);
      DoneIsSound(program, actions, vars, locInfos, visited);
      DoneIsExact(program, actions, vars, locInfos, visited);
      DoneIsShown(program, actions, vars, locInfos);
    }
  }
}
