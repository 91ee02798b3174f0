/**
 * The C the backend emits for expressions and statements, as a syntax tree
 * with its own meaning. Undefined behaviour has no result. Integers are `int`
 * (32 bits) or `int64_t`: an operation happens in the wider of its operands'
 * types.
 */
module CCode {
  import opened Wrappers
  import opened Values

  datatype CUnary = Minus | Bang | Tilde
  datatype CBinary = OrOr | AndAnd | Arithmetic(op: BinaryOp)   // the other operators

  datatype CExpr =
    | CInt(n: nat)
    | CBool(b: bool)
    | CField(name: string)                       // s->name
    | CLocal(name: string)
    | CUn(uop: CUnary, arg: CExpr)
    | CBin(op: CBinary, left: CExpr, right: CExpr)
    | CCond(test: CExpr, yes: CExpr, no: CExpr)

  // if (test) { body }, or else if
  datatype CArm = CArm(test: CExpr, body: seq<CStmt>)

  datatype CElse = NoElse | Else(body: seq<CStmt>)

  datatype CStmt =
    | CAssign(field: string, value: CExpr)                                  // s->field = value;
    | CIf(arms: seq<CArm>, no: CElse)                                       // if, else if, ..., else
    | CWhile(test: CExpr, body: seq<CStmt>)
    | CDoWhile(body: seq<CStmt>, test: CExpr)
    | CFor(field: string, first: CExpr, test: CExpr, step: CExpr,
        body: seq<CStmt>)  // for (s->f = first; test; s->f += step)
    | CDecl(name: string, value: CExpr)                                     // int64_t name = value;
    | CBraces(body: seq<CStmt>)                                             // { body }
    | CComment
    | CBreak
    | CReturn
    | CGoto(target: string)
    | COnce(body: seq<CStmt>, target: string)                               // do { body target:; } while (0);

  // The fields of the state structure; a value's kind is its field's C type.
  type Store = map<string, Value>
  type Locals = map<string, int>

  // ----- expressions -----

  // Whether the expression has type int64_t rather than int.
  predicate Wide(e: CExpr, s: Store) {
    match e
    case CInt(n) => n >= INT32
    case CBool(_) => false
    case CField(x) => x in s && s[x].VInt?
    case CLocal(_) => true
    case CUn(op, a) => !op.Bang? && Wide(a, s)
    case CBin(op, l, r) => op.Arithmetic? && !IsCompare(op.op) && (Wide(l, s) || Wide(r, s))
    case CCond(_, y, n) => Wide(y, s) || Wide(n, s)
  }

  function Limit(wide: bool): int {
    if wide then INT64 else INT32
  }

  function EvalC(e: CExpr, s: Store, locals: Locals): Option<int> {
    match e
    case CInt(n) => Checked(n, INT64)
    case CBool(b) => Some(Bit(b))
    case CField(x) => if x in s then Some(Num(s[x])) else None
    case CLocal(x) => if x in locals then Some(locals[x]) else None
    case CUn(op, a) =>
      var v := EvalC(a, s, locals);
      if v.None? then None
      else (match op
            case Minus => Checked(-v.value, Limit(Wide(a, s)))
            case Bang => Some(Bit(v.value == 0))
            case Tilde => Some(-v.value - 1))
    case CBin(op, l, r) =>
      var a := EvalC(l, s, locals);
      if a.None? then None
      else if (op.AndAnd? && a.value == 0) || (op.OrOr? && a.value != 0) then Some(Bit(op.OrOr?))
      else
        var b := EvalC(r, s, locals);
        if b.None? then None
        else (match op
              case AndAnd => Some(Bit(b.value != 0))
              case OrOr => Some(Bit(b.value != 0))
              case Arithmetic(o) =>
                if IsCompare(o) then Some(Bit(Compare(o, a.value, b.value)))
                else if IsLogic(o) then Some(Bitwise(o, a.value, b.value))
                else Arith(o, a.value, b.value, Limit(Wide(e, s))))
    case CCond(t, y, n) =>
      var v := EvalC(t, s, locals);
      if v.None? then None else EvalC(if v.value != 0 then y else n, s, locals)
  }

  // ----- statements -----

  datatype COutcome = CNormal | CBroke | CReturned | CJumped(target: string)
  datatype CRun = CDone(store: Store, outcome: COutcome) | CFault | COutOfFuel

  // Assignment converts to the field's type.
  function Stored(was: Value, v: int): Value {
    if was.VBool? then VBool(v != 0) else VInt(v)
  }

  // A declaration is in scope for the rest of its block.
  function Scope(c: CStmt, s: Store, locals: Locals): Locals {
    if c.CDecl? && EvalC(c.value, s, locals).Some? then locals[c.name := EvalC(c.value, s, locals).value] else locals
  }

  function ExecCBlock(cs: seq<CStmt>, s: Store, locals: Locals, fuel: nat): CRun
    decreases fuel, cs
  {
    if cs == [] then CDone(s, CNormal)
    else
      var r := ExecC(cs[0], s, locals, fuel);
      if r.CDone? && r.outcome.CNormal? then ExecCBlock(cs[1..], r.store, Scope(cs[0], s, locals), fuel) else r
  }

  function ExecC(c: CStmt, s: Store, locals: Locals, fuel: nat): CRun
    decreases fuel, c
  {
    match c
    case CAssign(x, e) =>
      var v := EvalC(e, s, locals);
      if v.None? || x !in s then CFault else CDone(s[x := Stored(s[x], v.value)], CNormal)
    case CIf(_, _) => ExecCArms(c, 0, s, locals, fuel)
    case CWhile(t, body) => ExecCWhile(t, body, s, locals, fuel)
    case CDoWhile(body, t) => ExecCDoWhile(body, t, s, locals, fuel)
    case CFor(x, first, t, step, body) =>
      var v := EvalC(first, s, locals);
      if v.None? || x !in s then CFault
      else ExecCFor(x, t, step, body, s[x := Stored(s[x], v.value)], locals, fuel)
    case CDecl(_, e) => if EvalC(e, s, locals).None? then CFault else CDone(s, CNormal)
    case CBraces(body) => ExecCBlock(body, s, locals, fuel)
    case CComment => CDone(s, CNormal)
    case CBreak => CDone(s, CBroke)
    case CReturn => CDone(s, CReturned)
    case CGoto(target) => CDone(s, CJumped(target))
    case COnce(body, target) =>
      var r := ExecCBlock(body, s, locals, fuel);
      if r.CDone? && (r.outcome.CBroke? || r.outcome == CJumped(target)) then CDone(r.store, CNormal) else r
  }

  // The first arm from k whose test is not zero.
  function ExecCArms(c: CStmt, k: nat, s: Store, locals: Locals, fuel: nat): CRun
    requires c.CIf? && k <= |c.arms|
    decreases fuel, c, |c.arms| - k
  {
    if k == |c.arms| then
      if c.no.Else? then ExecCBlock(c.no.body, s, locals, fuel) else CDone(s, CNormal)
    else
      var v := EvalC(c.arms[k].test, s, locals);
      if v.None? then CFault
      else if v.value != 0 then ExecCBlock(c.arms[k].body, s, locals, fuel)
      else ExecCArms(c, k + 1, s, locals, fuel)
  }

  function ExecCWhile(t: CExpr, body: seq<CStmt>, s: Store, locals: Locals, fuel: nat): CRun
    decreases fuel, body, 0
  {
    if fuel == 0 then COutOfFuel
    else
      var v := EvalC(t, s, locals);
      if v.None? then CFault
      else if v.value == 0 then CDone(s, CNormal)
      else
        var r := ExecCBlock(body, s, locals, fuel - 1);
        if r.CDone? && r.outcome.CNormal? then ExecCWhile(t, body, r.store, locals, fuel - 1)
        else if r.CDone? && r.outcome.CBroke? then CDone(r.store, CNormal)
        else r
  }

  function ExecCDoWhile(body: seq<CStmt>, t: CExpr, s: Store, locals: Locals, fuel: nat): CRun
    decreases fuel, body, 0
  {
    if fuel == 0 then COutOfFuel
    else
      var r := ExecCBlock(body, s, locals, fuel - 1);
      if r.CDone? && r.outcome.CNormal? then
        var v := EvalC(t, r.store, locals);
        if v.None? then CFault
        else if v.value == 0 then CDone(r.store, CNormal)
        else ExecCDoWhile(body, t, r.store, locals, fuel - 1)
      else if r.CDone? && r.outcome.CBroke? then CDone(r.store, CNormal)
      else r
  }

  function ExecCFor(x: string, t: CExpr, step: CExpr, body: seq<CStmt>, s: Store, locals: Locals, fuel: nat): CRun
    decreases fuel, body, 0
  {
    if fuel == 0 then COutOfFuel
    else
      var v := EvalC(t, s, locals);
      if v.None? then CFault
      else if v.value == 0 then CDone(s, CNormal)
      else
        var r := ExecCBlock(body, s, locals, fuel - 1);
        if r.CDone? && r.outcome.CNormal? then
          var next := EvalC(CBin(Arithmetic(Add), CField(x), step), r.store, locals);
          if next.None? || x !in r.store then CFault
          else ExecCFor(x, t, step, body, r.store[x := Stored(r.store[x], next.value)], locals, fuel - 1)
        else if r.CDone? && r.outcome.CBroke? then CDone(r.store, CNormal)
        else r
  }
}
