/**
 * Values of BOOL and of the signed integer types, and the integer operations
 * that Structured Text and the emitted C share. BOOL is a C `bool`, every
 * signed integer type an `int64_t`.
 */
module Values {
  import opened Wrappers

  datatype Ty = TBool | TInt
  datatype Value = VBool(b: bool) | VInt(n: int)

  function TypeOfValue(v: Value): Ty {
    if v.VBool? then TBool else TInt
  }

  // The number a value has in a C expression.
  function Num(v: Value): int {
    if v.VInt? then v.n else Bit(v.b)
  }

  function Bit(b: bool): int {
    if b then 1 else 0
  }

  const INT64: int := 0x8000_0000_0000_0000
  const INT32: int := 0x8000_0000

  // The two's-complement range [-limit, limit).
  predicate Fits(n: int, limit: int) {
    -limit <= n < limit
  }

  function Checked(n: int, limit: int): Option<int> {
    if Fits(n, limit) then Some(n) else None
  }

  // C and Rust division round toward zero.
  function Quotient(a: int, b: int): int
    requires b != 0
  {
    if a >= 0 then a / b else -(-a / b)
  }

  function Remainder(a: int, b: int): int
    requires b != 0
  {
    a - Quotient(a, b) * b
  }

  datatype BinaryOp = Or | Xor | And | Eq | Ne | Lt | Le | Gt | Ge | Add | Sub | Mul | Div | Mod

  predicate IsLogic(op: BinaryOp) { op.Or? || op.Xor? || op.And? }
  predicate IsCompare(op: BinaryOp) { op.Eq? || op.Ne? || op.Lt? || op.Le? || op.Gt? || op.Ge? }
  predicate IsArith(op: BinaryOp) { op.Add? || op.Sub? || op.Mul? || op.Div? || op.Mod? }

  // The exact result, if the operation has one.
  function Exact(op: BinaryOp, a: int, b: int): Option<int>
    requires IsArith(op)
  {
    match op
    case Add => Some(a + b)
    case Sub => Some(a - b)
    case Mul => Some(a * b)
    case Div => if b == 0 then None else Some(Quotient(a, b))
    case Mod => if b == 0 then None else Some(Remainder(a, b))
  }

  // Checked arithmetic in one width. The remainder of the lowest number by -1
  // is as undefined as its quotient.
  function Arith(op: BinaryOp, a: int, b: int, limit: int): Option<int>
    requires IsArith(op)
  {
    if Exact(op, a, b).None? || (op.Mod? && !Fits(Quotient(a, b), limit)) then None
    else Checked(Exact(op, a, b).value, limit)
  }

  predicate Compare(op: BinaryOp, a: int, b: int)
    requires IsCompare(op)
  {
    match op
    case Eq => a == b
    case Ne => a != b
    case Lt => a < b
    case Le => a <= b
    case Gt => a > b
    case Ge => a >= b
  }

  // Two's complement, of any width.
  function Bitwise(op: BinaryOp, a: int, b: int): int
    requires IsLogic(op)
    decreases (if a < 0 then -a else a) + (if b < 0 then -b else b)
  {
    if (a == 0 || a == -1) && (b == 0 || b == -1) then
      -Bit(LogicOf(op, a == -1, b == -1))
    else
      2 * Bitwise(op, a / 2, b / 2) + Bit(LogicOf(op, a % 2 == 1, b % 2 == 1))
  }

  predicate LogicOf(op: BinaryOp, a: bool, b: bool)
    requires IsLogic(op)
  {
    match op
    case Or => a || b
    case Xor => a != b
    case And => a && b
  }

  // On 0 and 1 the bit operators are the logical ones.
  lemma BitwiseOnBits(op: BinaryOp, a: bool, b: bool)
    requires IsLogic(op)
    ensures Bitwise(op, Bit(a), Bit(b)) == Bit(LogicOf(op, a, b))
  {
    assert Bitwise(op, 0, 0) == -Bit(LogicOf(op, false, false));
  }

  // A result that fits the narrower width is the same in both.
  lemma Narrower(op: BinaryOp, a: int, b: int)
    requires IsArith(op) && Arith(op, a, b, INT64).Some?
    requires Fits(Exact(op, a, b).value, INT32)
    requires op.Mod? ==> Fits(Quotient(a, b), INT32)
    ensures Arith(op, a, b, INT32) == Arith(op, a, b, INT64)
  {
  }
}
