/**
 * Structured Text over BOOL and signed integers, with function blocks inside
 * function blocks, and its meaning: a statement runs on the variables of its
 * own unit, and a call runs the block's body on the instance's own frame.
 */
module StructuredText {
  import opened Wrappers
  import opened Values

  type Name = string

  // A variable of a unit, or of an instance in it: [x], [instance, x], ...
  type Path = seq<Name>

  datatype UnaryOp = Neg | Not

  // Call: the comparison functions GT, GE, EQ, NE, LE and LT. Mux: MUX.
  datatype Expr =
    | Literal(n: int)
    | BoolLiteral(b: bool)
    | Variable(path: Path)
    | Unary(uop: UnaryOp, expr: Expr)
    | Binary(op: BinaryOp, left: Expr, right: Expr)
    | Call(cop: BinaryOp, args: seq<Expr>)
    | Mux(index: Expr, inputs: seq<Expr>)

  datatype CaseLabel = Single(value: Expr) | Range(low: Expr, high: Expr)
  datatype Branch = Branch(condition: Expr, body: seq<Statement>)
  datatype Case = Case(labels: seq<CaseLabel>, body: seq<Statement>)
  datatype Argument = Input(name: Option<Name>, expr: Expr) | Output(field: Name, target: Path)

  datatype Statement =
    | Empty
    | Assignment(target: Path, value: Expr)
    | If(branches: seq<Branch>, otherwise: seq<Statement>)
    | CaseOf(selector: Expr, cases: seq<Case>, otherwise: seq<Statement>)
    | For(control: Name, first: Expr, bound: Expr, step: Option<Expr>, body: seq<Statement>)
    | While(condition: Expr, body: seq<Statement>)
    | Repeat(body: seq<Statement>, until: Expr)
    | Exit
    | Return
    | FbCall(instance: Name, arguments: seq<Argument>)

  datatype VarBlockKind = VarInput | VarInOut | VarOutput | VarLocal
  datatype Declaration = Declaration(name: Name, kind: VarBlockKind, ty: Ty)
  datatype Instance = Instance(name: Name, block: Unit)

  // A program or a function block. A block holds its instances' blocks, so the
  // nesting is acyclic.
  datatype Unit = Unit(vars: seq<Declaration>, instances: seq<Instance>, body: seq<Statement>)

  // ----- declarations -----

  function FindVar(vars: seq<Declaration>, name: Name): (r: Option<Declaration>)
    ensures r.Some? ==> r.value in vars && r.value.name == name
    ensures r.None? ==> forall v <- vars :: v.name != name
  {
    if vars == [] then None
    else if vars[0].name == name then Some(vars[0])
    else FindVar(vars[1..], name)
  }

  // The position of an instance, or the number of instances.
  function FindInstance(instances: seq<Instance>, name: Name): (k: nat)
    ensures k <= |instances|
    ensures k < |instances| ==> instances[k].name == name
  {
    if instances == [] || instances[0].name == name then 0
    else 1 + FindInstance(instances[1..], name)
  }

  predicate HasInstance(u: Unit, name: Name) {
    FindInstance(u.instances, name) < |u.instances|
  }

  function BlockOf(u: Unit, name: Name): (block: Unit)
    requires HasInstance(u, name)
    ensures block < u
  {
    u.instances[FindInstance(u.instances, name)].block
  }

  // The type of a variable anywhere below the unit.
  function TypeAt(u: Unit, path: Path): Option<Ty>
    decreases |path|
  {
    if path == [] then None
    else if |path| == 1 then
      var d := FindVar(u.vars, path[0]);
      if d.Some? then Some(d.value.ty) else None
    else if HasInstance(u, path[0]) then TypeAt(BlockOf(u, path[0]), path[1..])
    else None
  }

  predicate Declared(u: Unit, path: Path) {
    TypeAt(u, path).Some?
  }

  // ----- frames -----

  type Frame = map<Path, Value>

  // A frame of the unit: a value of the right type for each variable below it.
  ghost predicate IsFrame(u: Unit, f: Frame) {
    && (forall p :: p in f <==> Declared(u, p))
    && forall p | p in f :: TypeAt(u, p) == Some(TypeOfValue(f[p]))
  }

  // The instance's own frame.
  function FrameOf(f: Frame, instance: Name): Frame {
    var paths := set p | p in f && |p| > 1 && p[0] == instance :: p[1..];
    map q | q in paths && [instance] + q in f :: f[[instance] + q]
  }

  // Putting it back.
  function Merge(f: Frame, instance: Name, g: Frame): Frame {
    map p | p in f :: if |p| > 1 && p[0] == instance && p[1..] in g then g[p[1..]] else f[p]
  }

  // ----- expressions -----

  function Eval(e: Expr, f: Frame): Option<Value> {
    match e
    case Literal(n) => if Fits(n, INT64) then Some(VInt(n)) else None
    case BoolLiteral(b) => Some(VBool(b))
    case Variable(p) => if p in f then Some(f[p]) else None
    case Unary(op, a) =>
      var v := Eval(a, f);
      if v.None? then None else ApplyUnary(op, v.value)
    case Binary(op, l, r) =>
      var a := Eval(l, f);
      if a.None? then None
      else if (op.And? && a.value == VBool(false)) || (op.Or? && a.value == VBool(true)) then a
      else
        var b := Eval(r, f);
        if b.None? then None else Apply(op, a.value, b.value)
    case Call(op, args) =>
      var vs := EvalAll(args, f);
      if vs.None? || !IsCompare(op) || |args| < 2 then None else Some(VBool(Chained(op, vs.value)))
    case Mux(index, inputs) =>
      var k := Eval(index, f);
      var vs := EvalAll(inputs, f);
      if k.None? || vs.None? || k.value.VBool? || !(0 <= k.value.n < |vs.value|) then None
      else Some(vs.value[k.value.n])
  }

  function EvalAll(es: seq<Expr>, f: Frame): (r: Option<seq<Value>>)
    ensures r.Some? ==> |r.value| == |es|
    ensures r.Some? ==> forall k :: 0 <= k < |es| ==> Eval(es[k], f) == Some(r.value[k])
    ensures r.None? ==> exists k :: 0 <= k < |es| && Eval(es[k], f).None?
  {
    if es == [] then Some([])
    else
      var v := Eval(es[0], f);
      var vs := EvalAll(es[1..], f);
      assert vs.None? ==> forall k :: 0 <= k < |es| - 1 && Eval(es[1..][k], f).None? ==> Eval(es[k + 1], f).None?;
      if v.None? || vs.None? then None else Some([v.value] + vs.value)
  }

  function ApplyUnary(op: UnaryOp, v: Value): Option<Value> {
    match op
    case Neg => if v.VBool? || !Fits(-v.n, INT64) then None else Some(VInt(-v.n))
    case Not => Some(if v.VBool? then VBool(!v.b) else VInt(-v.n - 1))
  }

  function Apply(op: BinaryOp, a: Value, b: Value): Option<Value> {
    if TypeOfValue(a) != TypeOfValue(b) then None
    else if IsCompare(op) then Some(VBool(Compare(op, Num(a), Num(b))))
    else if IsLogic(op) then
      Some(if a.VBool? then VBool(LogicOf(op, a.b, b.b)) else VInt(Bitwise(op, a.n, b.n)))
    else if a.VBool? then None
    else
      var r := Arith(op, a.n, b.n, INT64);
      if r.None? then None else Some(VInt(r.value))
  }

  // Each neighbouring pair compares.
  predicate Chained(op: BinaryOp, vs: seq<Value>)
    requires IsCompare(op)
  {
    forall k :: 0 <= k < |vs| - 1 ==> Compare(op, Num(vs[k]), Num(vs[k + 1]))
  }

  // ----- statements -----

  datatype Outcome = Normal | Exited | Returned

  // Fault: division by zero, overflow or a zero FOR step, where the program
  // has no defined behaviour. OutOfFuel: more than `fuel` loop rounds.
  datatype Run = Done(frame: Frame, outcome: Outcome) | Fault | OutOfFuel

  function ExecBlock(ss: seq<Statement>, u: Unit, f: Frame, fuel: nat): Run
    decreases u, fuel, ss
  {
    if ss == [] then Done(f, Normal)
    else
      var r := Exec(ss[0], u, f, fuel);
      if r.Done? && r.outcome.Normal? then ExecBlock(ss[1..], u, r.frame, fuel) else r
  }

  function Exec(s: Statement, u: Unit, f: Frame, fuel: nat): Run
    decreases u, fuel, s
  {
    match s
    case Empty => Done(f, Normal)
    case Assignment(target, value) =>
      var v := Eval(value, f);
      if v.None? then Fault else Done(f[target := v.value], Normal)
    case If(branches, otherwise) => ExecIf(s, 0, u, f, fuel)
    case CaseOf(selector, cases, otherwise) =>
      var v := Eval(selector, f);
      if v.None? then Fault else ExecCase(s, v.value, 0, u, f, fuel)
    case For(control, first, bound, increment, body) =>
      var from := Eval(first, f);
      var last := Eval(bound, f);
      var step := if increment.Some? then Eval(increment.value, f) else Some(VInt(1));
      if from.None? || last.None? || step.None? || last.value.VBool? || step.value.VBool? then Fault
      else if step.value.n == 0 then Fault
      else ExecFor([control], last.value.n, step.value.n, body, u, f[[control] := from.value], fuel)
    case While(condition, body) => ExecWhile(condition, body, u, f, fuel)
    case Repeat(body, until) => ExecRepeat(body, until, u, f, fuel)
    case Exit => Done(f, Exited)
    case Return => Done(f, Returned)
    case FbCall(instance, arguments) =>
      if !HasInstance(u, instance) then Fault
      else
        var block := BlockOf(u, instance);
        var called := BindInputs(arguments, 0, block, instance, f);
        if called.None? then Fault
        else
          var r := ExecBlock(block.body, block, FrameOf(called.value, instance), fuel);
          if !r.Done? then r
          else
            var back := Merge(called.value, instance, r.frame);
            Done(CopyOutputs(arguments, instance, CopyInOuts(arguments, 0, block, instance, back)), Normal)
  }

  // The first branch from k whose condition holds.
  function ExecIf(s: Statement, k: nat, u: Unit, f: Frame, fuel: nat): Run
    requires s.If? && k <= |s.branches|
    decreases u, fuel, s, |s.branches| - k
  {
    if k == |s.branches| then ExecBlock(s.otherwise, u, f, fuel)
    else
      var c := Eval(s.branches[k].condition, f);
      if c.None? || c.value.VInt? then Fault
      else if c.value.b then ExecBlock(s.branches[k].body, u, f, fuel)
      else ExecIf(s, k + 1, u, f, fuel)
  }

  // The first case from k with a matching label.
  function ExecCase(s: Statement, v: Value, k: nat, u: Unit, f: Frame, fuel: nat): Run
    requires s.CaseOf? && k <= |s.cases|
    decreases u, fuel, s, |s.cases| - k
  {
    if k == |s.cases| then ExecBlock(s.otherwise, u, f, fuel)
    else
      var m := AnyMatches(s.cases[k].labels, v, f);
      if m.None? then Fault
      else if m.value then ExecBlock(s.cases[k].body, u, f, fuel)
      else ExecCase(s, v, k + 1, u, f, fuel)
  }

  function AnyMatches(labels: seq<CaseLabel>, v: Value, f: Frame): Option<bool> {
    if labels == [] then Some(false)
    else
      var m := Matches(labels[0], v, f);
      if m.None? || m.value then m else AnyMatches(labels[1..], v, f)
  }

  function Matches(l: CaseLabel, v: Value, f: Frame): Option<bool> {
    match l
    case Single(e) =>
      var w := Eval(e, f);
      if w.None? then None else Some(v == w.value)
    case Range(low, high) =>
      var lo, hi := Eval(low, f), Eval(high, f);
      if lo.None? || hi.None? then None else Some(Num(lo.value) <= Num(v) <= Num(hi.value))
  }

  // TO and BY have been evaluated once; the control variable is in the frame.
  function ExecFor(control: Path, last: int, step: int, body: seq<Statement>, u: Unit, f: Frame, fuel: nat): Run
    decreases u, fuel, body, 0
  {
    if fuel == 0 then OutOfFuel
    else if control !in f || f[control].VBool? then Fault
    else if if step > 0 then f[control].n <= last else f[control].n >= last then
      var r := ExecBlock(body, u, f, fuel - 1);
      if r.Done? && r.outcome.Normal? then
        if control !in r.frame || r.frame[control].VBool? then Fault
        else
          var next := Arith(Add, r.frame[control].n, step, INT64);
          if next.None? then Fault
          else ExecFor(control, last, step, body, u, r.frame[control := VInt(next.value)], fuel - 1)
      else if r.Done? && r.outcome.Exited? then Done(r.frame, Normal)
      else r
    else Done(f, Normal)
  }

  function ExecWhile(condition: Expr, body: seq<Statement>, u: Unit, f: Frame, fuel: nat): Run
    decreases u, fuel, body, 0
  {
    if fuel == 0 then OutOfFuel
    else
      var c := Eval(condition, f);
      if c.None? || c.value.VInt? then Fault
      else if !c.value.b then Done(f, Normal)
      else
        var r := ExecBlock(body, u, f, fuel - 1);
        if r.Done? && r.outcome.Normal? then ExecWhile(condition, body, u, r.frame, fuel - 1)
        else if r.Done? && r.outcome.Exited? then Done(r.frame, Normal)
        else r
  }

  function ExecRepeat(body: seq<Statement>, until: Expr, u: Unit, f: Frame, fuel: nat): Run
    decreases u, fuel, body, 0
  {
    if fuel == 0 then OutOfFuel
    else
      var r := ExecBlock(body, u, f, fuel - 1);
      if r.Done? && r.outcome.Normal? then
        var c := Eval(until, r.frame);
        if c.None? || c.value.VInt? then Fault
        else if c.value.b then Done(r.frame, Normal)
        else ExecRepeat(body, until, u, r.frame, fuel - 1)
      else if r.Done? && r.outcome.Exited? then Done(r.frame, Normal)
      else r
  }

  // ----- function-block calls -----

  // The parameters an input argument can name, in declaration order.
  function InputFields(vars: seq<Declaration>): (fields: seq<Declaration>)
    ensures forall d <- fields :: d in vars && (d.kind.VarInput? || d.kind.VarInOut?)
  {
    if vars == [] then []
    else (if vars[0].kind.VarInput? || vars[0].kind.VarInOut? then [vars[0]] else []) + InputFields(vars[1..])
  }

  // The parameter of an argument; `position` counts the positional ones.
  function InputTarget(fields: seq<Declaration>, a: Argument, position: nat): (r: Option<Declaration>)
    ensures r.Some? ==> r.value in fields
  {
    if a.Output? then None
    else if a.name.Some? then FindVar(fields, a.name.value)
    else if position < |fields| then Some(fields[position])
    else None
  }

  function NextPosition(a: Argument, position: nat): nat {
    if a.Input? && a.name.None? then position + 1 else position
  }

  // Inputs are assigned in argument order, each seeing the ones before it.
  function BindInputs(args: seq<Argument>, position: nat, block: Unit, instance: Name, f: Frame): Option<Frame> {
    if args == [] then Some(f)
    else
      var t := InputTarget(InputFields(block.vars), args[0], position);
      if t.None? then BindInputs(args[1..], NextPosition(args[0], position), block, instance, f)
      else
        var v := Eval(args[0].expr, f);
        if v.None? then None
        else BindInputs(args[1..], NextPosition(args[0], position), block, instance,
            f[[instance, t.value.name] := v.value])
  }

  // VAR_IN_OUT parameters go back to the variables passed for them.
  function CopyInOuts(args: seq<Argument>, position: nat, block: Unit, instance: Name, f: Frame): Frame {
    if args == [] then f
    else
      var t := InputTarget(InputFields(block.vars), args[0], position);
      var g :=
        if t.Some? && t.value.kind.VarInOut? && args[0].expr.Variable? && [instance, t.value.name] in f
        then f[args[0].expr.path := f[[instance, t.value.name]]] else f;
      CopyInOuts(args[1..], NextPosition(args[0], position), block, instance, g)
  }

  function CopyOutputs(args: seq<Argument>, instance: Name, f: Frame): Frame {
    if args == [] then f
    else
      var g :=
        if args[0].Output? && [instance, args[0].field] in f
        then f[args[0].target := f[[instance, args[0].field]]] else f;
      CopyOutputs(args[1..], instance, g)
  }
}
