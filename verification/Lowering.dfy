/**
 * From Structured Text to C: the emitted tree of every expression and
 * statement, with function-block calls inlined on flattened field names.
 */
module Lowering {
  import opened Wrappers
  import opened Values
  import opened StructuredText
  import opened CCode

  // The C field of each variable of the unit being emitted.
  type Naming = Path -> string

  // Naming inside an instance.
  function Under(names: Naming, instance: Name): Naming {
    p => names([instance] + p)
  }

  // ----- expressions -----

  // `expr_is_bool_for_c`: fields of function-block instances are not seen.
  predicate IsBoolForC(e: Expr, u: Unit) {
    match e
    case Literal(_) => false
    case BoolLiteral(_) => true
    case Variable(p) => |p| == 1 && TypeAt(u, p) == Some(TBool)
    case Unary(op, a) => op.Not? && IsBoolForC(a, u)
    case Binary(op, l, r) => IsCompare(op) || (IsLogic(op) && IsBoolForC(l, u) && IsBoolForC(r, u))
    case Call(_, _) => true
    case Mux(_, _) => false
  }

  // `binary_op_to_c_state`.
  function OperatorFor(op: BinaryOp, boolOperands: bool): CBinary {
    if !boolOperands then Arithmetic(op)
    else match op
      case Or => OrOr
      case Xor => Arithmetic(Ne)
      case And => AndAnd
      case _ => Arithmetic(op)
  }

  // `expr_to_c_state` and `expr_to_c_for_user_fb`.
  function LowerExpr(e: Expr, u: Unit, names: Naming): CExpr {
    match e
    case Literal(n) => if n < 0 then CUn(Minus, CInt(-n)) else CInt(n)
    case BoolLiteral(b) => CBool(b)
    case Variable(p) => CField(names(p))
    case Unary(Neg, a) => CUn(Minus, LowerExpr(a, u, names))
    case Unary(Not, a) => CUn(if IsBoolForC(a, u) then Bang else Tilde, LowerExpr(a, u, names))
    case Binary(op, l, r) =>
      CBin(OperatorFor(op, IsBoolForC(l, u) && IsBoolForC(r, u)), LowerExpr(l, u, names), LowerExpr(r, u, names))
    case Call(op, args) => if |args| < 2 then Undeclared() else ChainExpr(op, LowerAll(args, u, names))
    case Mux(k, inputs) =>
      if |inputs| == 0 then Undeclared() else MuxExpr(LowerExpr(k, u, names), LowerAll(inputs, u, names), 0)
  }

  function LowerAll(es: seq<Expr>, u: Unit, names: Naming): (cs: seq<CExpr>)
    ensures |cs| == |es| && forall k :: 0 <= k < |es| ==> cs[k] == LowerExpr(es[k], u, names)
  {
    if es == [] then [] else [LowerExpr(es[0], u, names)] + LowerAll(es[1..], u, names)
  }

  // A call with too few arguments is left as a call of a function C does not know.
  function Undeclared(): CExpr {
    CLocal("")
  }

  // `compare_chain_to_c`: (a op b) && (b op c) && ..., which C groups to the left.
  function ChainExpr(op: BinaryOp, cs: seq<CExpr>): CExpr
    requires |cs| >= 2
  {
    var last := CBin(Arithmetic(op), cs[|cs| - 2], cs[|cs| - 1]);
    if |cs| == 2 then last else CBin(AndAnd, ChainExpr(op, cs[..|cs| - 1]), last)
  }

  // `mux_to_c`: nested conditionals, the last input when no other is chosen.
  function MuxExpr(index: CExpr, inputs: seq<CExpr>, position: nat): CExpr
    requires position < |inputs|
    decreases |inputs| - position
  {
    if position == |inputs| - 1 then inputs[position]
    else CCond(CBin(Arithmetic(Eq), index, CInt(position)), inputs[position], MuxExpr(index, inputs, position + 1))
  }

  // ----- statements -----

  // RETURN leaves a program's scan function; an inlined body jumps to its end.
  datatype Context = Program | Body(target: string)

  function LowerOutcome(o: Outcome, cx: Context): COutcome {
    match o
    case Normal => CNormal
    case Exited => CBroke
    case Returned => if cx.Program? then CReturned else CJumped(cx.target)
  }

  const STEP: string := "rbcpp_step"
  const SELECTOR: string := "rbcpp_case"

  function LowerBlock(ss: seq<Statement>, u: Unit, names: Naming, cx: Context): seq<CStmt>
    decreases u, ss, 0
  {
    if ss == [] then [] else Lower(ss[0], u, names, cx) + LowerBlock(ss[1..], u, names, cx)
  }

  function Lower(s: Statement, u: Unit, names: Naming, cx: Context): seq<CStmt>
    decreases u, s
  {
    match s
    case Empty => if cx.Program? then [CComment] else []
    case Assignment(target, value) => [CAssign(names(target), LowerExpr(value, u, names))]
    case If(branches, otherwise) => [CIf(LowerBranches(branches, u, names, cx), LowerElse(otherwise, u, names, cx))]
    case CaseOf(selector, cases, otherwise) =>
      var sel := LowerExpr(selector, u, names);
      if cx.Program? then [CIf(LowerCases(cases, sel, u, names, cx), LowerElse(otherwise, u, names, cx))]
      else [CDecl(SELECTOR, sel),
          CIf(LowerCases(cases, CLocal(SELECTOR), u, names, cx), LowerElse(otherwise, u, names, cx))]
    case For(control, first, bound, step, body) =>
      var c := names([control]);
      var stride := if step.Some? then LowerExpr(step.value, u, names) else CInt(1);
      [CBraces([CDecl(STEP, stride),
                CFor(c, LowerExpr(first, u, names), ForTest(c, LowerExpr(bound, u, names)), CLocal(STEP),
                    LowerBlock(body, u, names, cx))])]
    case While(condition, body) => [CWhile(LowerExpr(condition, u, names), LowerBlock(body, u, names, cx))]
    case Repeat(body, until) => [CDoWhile(LowerBlock(body, u, names, cx), CUn(Bang, LowerExpr(until, u, names)))]
    case Exit => [CBreak]
    case Return => [if cx.Program? then CReturn else CGoto(cx.target)]
    case FbCall(instance, arguments) =>
      if !HasInstance(u, instance) then [CComment]
      else
        var block := BlockOf(u, instance);
        var target := ReturnLabel(names, instance);
        LowerInputs(arguments, 0, block, instance, u, names)
        + [COnce(LowerBlock(block.body, block, Under(names, instance), Body(target)), target)]
        + LowerInOuts(arguments, 0, block, instance, names)
        + LowerOutputs(arguments, instance, names)
  }

  // (rbcpp_step >= 0) ? (s->c <= bound) : (s->c >= bound)
  function ForTest(control: string, bound: CExpr): CExpr {
    CCond(CBin(Arithmetic(Ge), CLocal(STEP), CInt(0)),
          CBin(Arithmetic(Le), CField(control), bound),
          CBin(Arithmetic(Ge), CField(control), bound))
  }

  function ReturnLabel(names: Naming, instance: Name): string {
    "rbcpp_return_" + names([instance])
  }

  function LowerElse(otherwise: seq<Statement>, u: Unit, names: Naming, cx: Context): CElse
    decreases u, otherwise, 1
  {
    if otherwise == [] then NoElse else Else(LowerBlock(otherwise, u, names, cx))
  }

  function LowerBranches(branches: seq<Branch>, u: Unit, names: Naming, cx: Context): (arms: seq<CArm>)
    ensures |arms| == |branches|
    ensures forall k :: 0 <= k < |branches| ==>
      arms[k] == CArm(LowerExpr(branches[k].condition, u, names), LowerBlock(branches[k].body, u, names, cx))
    decreases u, branches
  {
    if branches == [] then []
    else
      var b := branches[0];
      [CArm(LowerExpr(b.condition, u, names), LowerBlock(b.body, u, names, cx))]
          + LowerBranches(branches[1..], u, names, cx)
  }

  function LowerCases(cases: seq<Case>, selector: CExpr, u: Unit, names: Naming, cx: Context): (arms: seq<CArm>)
    ensures |arms| == |cases|
    ensures forall k :: 0 <= k < |cases| ==>
      arms[k] == CArm(AnyOf(LowerLabels(cases[k].labels, selector, u, names)), LowerBlock(cases[k].body, u, names, cx))
    decreases u, cases
  {
    if cases == [] then []
    else
      var c := cases[0];
      [CArm(AnyOf(LowerLabels(c.labels, selector, u, names)), LowerBlock(c.body, u, names, cx))]
      + LowerCases(cases[1..], selector, u, names, cx)
  }

  function LowerLabels(labels: seq<CaseLabel>, selector: CExpr, u: Unit, names: Naming): (tests: seq<CExpr>)
    ensures |tests| == |labels|
    ensures forall k :: 0 <= k < |labels| ==> tests[k] == LowerLabel(labels[k], selector, u, names)
  {
    if labels == [] then []
    else [LowerLabel(labels[0], selector, u, names)] + LowerLabels(labels[1..], selector, u, names)
  }

  // `case_label_to_c`.
  function LowerLabel(l: CaseLabel, selector: CExpr, u: Unit, names: Naming): CExpr {
    match l
    case Single(e) => CBin(Arithmetic(Eq), selector, LowerExpr(e, u, names))
    case Range(low, high) =>
      CBin(AndAnd, CBin(Arithmetic(Ge), selector, LowerExpr(low, u, names)),
          CBin(Arithmetic(Le), selector, LowerExpr(high, u, names)))
  }

  // The tests joined by ` || `, which C groups to the left.
  function AnyOf(tests: seq<CExpr>): CExpr {
    if tests == [] then Undeclared()
    else if |tests| == 1 then tests[0]
    else CBin(OrOr, AnyOf(tests[..|tests| - 1]), tests[|tests| - 1])
  }

  // ----- function-block calls -----

  function LowerInputs(args: seq<Argument>, position: nat, block: Unit, instance: Name, u: Unit,
      names: Naming): seq<CStmt> {
    if args == [] then []
    else
      var t := InputTarget(InputFields(block.vars), args[0], position);
      (if t.None? then [] else [CAssign(names([instance, t.value.name]), LowerExpr(args[0].expr, u, names))])
      + LowerInputs(args[1..], NextPosition(args[0], position), block, instance, u, names)
  }

  function LowerInOuts(args: seq<Argument>, position: nat, block: Unit, instance: Name, names: Naming): seq<CStmt> {
    if args == [] then []
    else
      var t := InputTarget(InputFields(block.vars), args[0], position);
      (if t.Some? && t.value.kind.VarInOut? && args[0].expr.Variable?
       then [CAssign(names(args[0].expr.path), CField(names([instance, t.value.name])))] else [])
      + LowerInOuts(args[1..], NextPosition(args[0], position), block, instance, names)
  }

  function LowerOutputs(args: seq<Argument>, instance: Name, names: Naming): seq<CStmt> {
    if args == [] then []
    else
      (if args[0].Output? then [CAssign(names(args[0].target), CField(names([instance, args[0].field])))] else [])
      + LowerOutputs(args[1..], instance, names)
  }

  // ----- the supported language -----

  function TypeOf(e: Expr, u: Unit): Option<Ty> {
    match e
    case Literal(n) => if -INT64 < n < INT64 then Some(TInt) else None
    case BoolLiteral(_) => Some(TBool)
    case Variable(p) => TypeAt(u, p)
    case Unary(Neg, a) => if TypeOf(a, u) == Some(TInt) then Some(TInt) else None
    case Unary(Not, a) => TypeOf(a, u)
    case Binary(op, l, r) =>
      var t := TypeOf(l, u);
      if t.None? || TypeOf(r, u) != t then None
      else if IsCompare(op) then Some(TBool)
      else if IsArith(op) && t.value.TBool? then None
      else t
    case Call(op, args) => if IsCompare(op) && |args| >= 2 && CommonType(args, u).Some? then Some(TBool) else None
    case Mux(k, inputs) => if TypeOf(k, u) == Some(TInt) && 0 < |inputs| < INT64 then CommonType(inputs, u) else None
  }

  function CommonType(es: seq<Expr>, u: Unit): (t: Option<Ty>)
    ensures t.Some? ==> forall e <- es :: TypeOf(e, u) == t
  {
    if es == [] then None
    else if |es| == 1 then TypeOf(es[0], u)
    else if CommonType(es[1..], u) == TypeOf(es[0], u) then TypeOf(es[0], u) else None
  }

  // Whether C computes the expression in 64 bits.
  predicate WideExpr(e: Expr, u: Unit) {
    match e
    case Literal(n) => n >= INT32 || -n >= INT32
    case BoolLiteral(_) => false
    case Variable(p) => TypeAt(u, p) == Some(TInt)
    case Unary(op, a) => !(op.Not? && IsBoolForC(a, u)) && WideExpr(a, u)
    case Binary(op, l, r) =>
      !IsCompare(op) && !(IsLogic(op) && IsBoolForC(l, u) && IsBoolForC(r, u)) && (WideExpr(l, u) || WideExpr(r, u))
    case Call(_, _) => false
    case Mux(_, inputs) => AnyWide(inputs, u)
  }

  predicate AnyWide(es: seq<Expr>, u: Unit) {
    es != [] && (WideExpr(es[0], u) || AnyWide(es[1..], u))
  }

  // The values that an expression built from literals can take, exactly.
  function Possible(e: Expr): set<int> {
    match e
    case Literal(n) => {n}
    case Unary(op, a) => set v <- Possible(a) :: if op.Neg? then -v else -v - 1
    case Binary(op, l, r) =>
      if IsArith(op) then
        set a, b | a in Possible(l) && b in Possible(r) && Exact(op, a, b).Some? :: Exact(op, a, b).value
      else if IsLogic(op) then
        set a, b | a in Possible(l) && b in Possible(r) :: Bitwise(op, a, b)
      else {}
    case Mux(_, inputs) => PossibleOf(inputs)
    case _ => {}
  }

  function PossibleOf(es: seq<Expr>): (vs: set<int>)
    ensures forall e <- es :: Possible(e) <= vs
  {
    if es == [] then {} else Possible(es[0]) + PossibleOf(es[1..])
  }

  // An operation that C carries out in 32 bits has a 32-bit result.
  predicate OperationFits(e: Expr, u: Unit) {
    WideExpr(e, u)
    || match e
       case Unary(Neg, a) => forall v <- Possible(a) :: Fits(-v, INT32)
       case Binary(op, l, r) =>
         IsArith(op) ==> forall a, b | a in Possible(l) && b in Possible(r) :: NarrowFits(op, a, b)
       case _ => true
  }

  predicate NarrowFits(op: BinaryOp, a: int, b: int)
    requires IsArith(op)
  {
    Exact(op, a, b).Some? ==> Fits(Exact(op, a, b).value, INT32) && (op.Mod? ==> Fits(Quotient(a, b), INT32))
  }

  // Has a value in every frame.
  predicate Total(e: Expr) {
    match e
    case Literal(_) => true
    case BoolLiteral(_) => true
    case Variable(_) => true
    case Unary(op, a) => op.Not? && Total(a)
    case Binary(op, l, r) => !IsArith(op) && Total(l) && Total(r)
    case Call(_, args) => forall a <- args :: Total(a)
    case Mux(_, _) => false
  }

  // What C computes as Structured Text does. NOT of a BOOL that the classifier
  // misses would be `~`; AND and OR of such a BOOL are `&` and `|`, which always
  // evaluate both sides; arithmetic on small literals is done in 32 bits.
  predicate Supported(e: Expr, u: Unit) {
    match e
    case Literal(_) => true
    case BoolLiteral(_) => true
    case Variable(_) => true
    case Unary(Neg, a) => Supported(a, u) && OperationFits(e, u)
    case Unary(Not, a) => Supported(a, u) && (TypeOf(a, u) == Some(TBool) ==> IsBoolForC(a, u))
    case Binary(op, l, r) =>
      && Supported(l, u) && Supported(r, u)
      && (IsArith(op) ==> OperationFits(e, u))
      && ((op.And? || op.Or?) && TypeOf(l, u) == Some(TBool) && !(IsBoolForC(l, u) && IsBoolForC(r, u)) ==> Total(r))
    case Call(_, args) => forall a <- args :: Supported(a, u)
    case Mux(k, inputs) => Supported(k, u) && forall a <- inputs :: Supported(a, u)
  }

  // ----- what survives printing -----

  // Comparison calls have two arguments or more, MUX an input or more.
  predicate HasArity(e: Expr) {
    match e
    case Literal(_) => true
    case BoolLiteral(_) => true
    case Variable(_) => true
    case Unary(_, a) => HasArity(a)
    case Binary(_, l, r) => HasArity(l) && HasArity(r)
    case Call(_, args) => |args| >= 2 && forall a <- args :: HasArity(a)
    case Mux(k, inputs) => |inputs| >= 1 && HasArity(k) && forall a <- inputs :: HasArity(a)
  }

  // Printed as several comparisons joined by `&&`, without parentheses.
  predicate Chains(e: Expr) {
    match e
    case Call(_, args) => |args| > 2
    case Mux(_, inputs) => |inputs| == 1 && Chains(inputs[0])
    case _ => false
  }

  // Chains stand only where C groups them as they are meant: alone, under `||`,
  // or to the left of `&&`.
  predicate OperandsOk(e: Expr, u: Unit, inBlock: bool) {
    match e
    case Unary(op, a) => OperandsOk(a, u, inBlock) && (inBlock && op.Neg? ==> !Chains(a))
    case Binary(op, l, r) =>
      var o := OperatorFor(op, IsBoolForC(l, u) && IsBoolForC(r, u));
      && OperandsOk(l, u, inBlock) && OperandsOk(r, u, inBlock)
      && (o.OrOr? || !Chains(r)) && (o.Arithmetic? ==> !Chains(l))
    case Call(_, args) => forall k :: 0 <= k < |args| ==> OperandsOk(args[k], u, inBlock) && !Chains(args[k])
    case Mux(index, inputs) =>
      && (|inputs| > 1 ==> OperandsOk(index, u, inBlock))
      && forall k :: 0 <= k < |inputs| ==> OperandsOk(inputs[k], u, inBlock)
    case _ => true
  }

  // A negation printed as `(-` right before a minus sign.
  predicate Glued(e: Expr, inBlock: bool) {
    match e
    case Unary(op, a) => (inBlock && op.Neg? && StartsWithMinus(a)) || Glued(a, inBlock)
    case Binary(_, l, r) => Glued(l, inBlock) || Glued(r, inBlock)
    case Call(_, args) => exists a <- args :: Glued(a, inBlock)
    case Mux(k, inputs) => (|inputs| > 1 && Glued(k, inBlock)) || exists a <- inputs :: Glued(a, inBlock)
    case _ => false
  }

  predicate StartsWithMinus(e: Expr) {
    match e
    case Literal(n) => n < 0
    case Mux(_, inputs) => |inputs| == 1 && StartsWithMinus(inputs[0])
    case _ => false
  }

  // The text of the expression is read as it is meant.
  predicate Prints(e: Expr, u: Unit, inBlock: bool) {
    HasArity(e) && OperandsOk(e, u, inBlock) && !Glued(e, inBlock)
  }

  // ----- statements -----

  predicate HasMeaning(e: Expr, u: Unit, t: Ty) {
    TypeOf(e, u) == Some(t) && Supported(e, u)
  }

  // An expression of the type, in a program or in the body of a block.
  predicate SupportedAs(e: Expr, u: Unit, t: Ty, inBlock: bool) {
    HasMeaning(e, u, t) && Prints(e, u, inBlock)
  }

  function Reads(e: Expr): set<Path> {
    match e
    case Literal(_) => {}
    case BoolLiteral(_) => {}
    case Variable(p) => {p}
    case Unary(_, a) => Reads(a)
    case Binary(_, l, r) => Reads(l) + Reads(r)
    case Call(_, args) => ReadsAll(args)
    case Mux(k, inputs) => Reads(k) + ReadsAll(inputs)
  }

  function ReadsAll(es: seq<Expr>): (r: set<Path>)
    ensures forall e <- es :: Reads(e) <= r
  {
    if es == [] then {} else Reads(es[0]) + ReadsAll(es[1..])
  }

  predicate BlockWrites(ss: seq<Statement>, u: Unit, p: Path) {
    exists s <- ss :: Writes(s, u, p)
  }

  // Whether the statement can change the variable.
  predicate Writes(s: Statement, u: Unit, p: Path) {
    match s
    case Empty => false
    case Assignment(target, _) => p == target
    case If(branches, otherwise) => (exists b <- branches :: BlockWrites(b.body, u, p)) || BlockWrites(otherwise, u, p)
    case CaseOf(_, cases, otherwise) => (exists c <- cases :: BlockWrites(c.body, u, p)) || BlockWrites(otherwise, u, p)
    case For(control, _, _, _, body) => p == [control] || BlockWrites(body, u, p)
    case While(_, body) => BlockWrites(body, u, p)
    case Repeat(body, _) => BlockWrites(body, u, p)
    case Exit => false
    case Return => false
    case FbCall(instance, arguments) =>
      || (|p| > 1 && p[0] == instance)
      || (HasInstance(u, instance) && InOutWrites(arguments, 0, BlockOf(u, instance), p))
      || exists a <- arguments :: a.Output? && a.target == p
  }

  predicate InOutWrites(args: seq<Argument>, position: nat, block: Unit, p: Path) {
    if args == [] then false
    else
      var t := InputTarget(InputFields(block.vars), args[0], position);
      (t.Some? && t.value.kind.VarInOut? && args[0].expr == Variable(p))
      || InOutWrites(args[1..], NextPosition(args[0], position), block, p)
  }

  // The bound, which C evaluates again in every round, keeps its value.
  predicate StableBound(bound: Expr, body: seq<Statement>, control: Path, u: Unit) {
    forall p <- Reads(bound) :: p != control && !BlockWrites(body, u, p)
  }

  predicate SupportedBlock(ss: seq<Statement>, u: Unit, inBlock: bool) {
    forall s <- ss :: SupportedStatement(s, u, inBlock)
  }

  predicate SupportedStatement(s: Statement, u: Unit, inBlock: bool) {
    match s
    case Empty => true
    case Assignment(target, value) => Declared(u, target) && SupportedAs(value, u, TypeAt(u, target).value, inBlock)
    case If(branches, otherwise) =>
      && branches != []
      && (forall b <- branches :: SupportedAs(b.condition, u, TBool, inBlock) && SupportedBlock(b.body, u, inBlock))
      && SupportedBlock(otherwise, u, inBlock)
    case CaseOf(selector, cases, otherwise) =>
      && cases != []
      && SupportedAs(selector, u, TInt, inBlock)
      && (forall c <- cases :: c.labels != [] && forall l <- c.labels :: SupportedLabel(l, u, inBlock))
      && (forall c <- cases :: SupportedBlock(c.body, u, inBlock))
      && SupportedBlock(otherwise, u, inBlock)
    case For(control, first, bound, step, body) =>
      && TypeAt(u, [control]) == Some(TInt)
      && SupportedAs(first, u, TInt, inBlock) && SupportedAs(bound, u, TInt, inBlock)
          && (step.Some? ==> SupportedAs(step.value, u, TInt, inBlock))
      && SupportedBlock(body, u, inBlock)
      && StableBound(bound, body, [control], u)
    case While(condition, body) => SupportedAs(condition, u, TBool, inBlock) && SupportedBlock(body, u, inBlock)
    case Repeat(body, until) => SupportedAs(until, u, TBool, inBlock) && SupportedBlock(body, u, inBlock)
    case Exit => true
    case Return => true
    case FbCall(instance, arguments) =>
      && HasInstance(u, instance)
      && SupportedArguments(arguments, 0, BlockOf(u, instance), u, inBlock)
  }

  predicate SupportedLabel(l: CaseLabel, u: Unit, inBlock: bool) {
    match l
    case Single(e) => SupportedAs(e, u, TInt, inBlock)
    case Range(low, high) => SupportedAs(low, u, TInt, inBlock) && SupportedAs(high, u, TInt, inBlock)
  }

  // Arguments have their parameters' types; a VAR_IN_OUT actual is a variable.
  predicate SupportedArguments(args: seq<Argument>, position: nat, block: Unit, u: Unit, inBlock: bool) {
    args == []
    || (SupportedArgument(args[0], position, block, u, inBlock)
        && SupportedArguments(args[1..], NextPosition(args[0], position), block, u, inBlock))
  }

  predicate SupportedArgument(a: Argument, position: nat, block: Unit, u: Unit, inBlock: bool) {
    match a
    case Input(_, e) =>
      var t := InputTarget(InputFields(block.vars), a, position);
      t.Some? ==> SupportedAs(e, u, t.value.ty, inBlock)
                  && TypeAt(block, [t.value.name]) == Some(t.value.ty)
                  && (t.value.kind.VarInOut? ==> e.Variable?)
    case Output(field, target) => Declared(u, target) && TypeAt(block, [field]) == TypeAt(u, target)
  }

  // The blocks called, and those they call, are in the language.
  predicate SupportedInstances(u: Unit) {
    forall i <- u.instances :: SupportedBlock(i.block.body, i.block, true) && SupportedInstances(i.block)
  }

  // Whether the statements can end with EXIT or RETURN: EXIT leaves a loop, and
  // RETURN a call, only.
  predicate BlockLeaves(ss: seq<Statement>, o: Outcome) {
    exists s <- ss :: Leaves(s, o)
  }

  predicate Leaves(s: Statement, o: Outcome) {
    match s
    case If(branches, otherwise) => (exists b <- branches :: BlockLeaves(b.body, o)) || BlockLeaves(otherwise, o)
    case CaseOf(_, cases, otherwise) => (exists c <- cases :: BlockLeaves(c.body, o)) || BlockLeaves(otherwise, o)
    case For(_, _, _, _, body) => o.Returned? && BlockLeaves(body, o)
    case While(_, body) => o.Returned? && BlockLeaves(body, o)
    case Repeat(body, _) => o.Returned? && BlockLeaves(body, o)
    case Exit => o.Exited?
    case Return => o.Returned?
    case _ => false
  }

  // EXIT outside the loops of a program would be a `break` with nothing to leave.
  predicate SupportedProgram(u: Unit) {
    SupportedBlock(u.body, u, false) && SupportedInstances(u) && !BlockLeaves(u.body, Exited)
  }
}
