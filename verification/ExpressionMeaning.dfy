/**
 * The emitted C expression computes what the Structured Text expression means.
 */
module ExpressionMeaning {
  import opened Wrappers
  import opened Values
  import opened StructuredText
  import opened CCode
  import opened Lowering

  // The C store holds the frame, each variable in its own field.
  ghost predicate Holds(s: Store, f: Frame, names: Naming) {
    forall p | p in f :: names(p) in s && s[names(p)] == f[p]
  }

  ghost predicate Represents(s: Store, u: Unit, f: Frame, names: Naming) {
    IsFrame(u, f) && Holds(s, f, names)
  }

  // C picks the width that the source expression predicts.
  lemma {:induction false} WidthIsPredicted(e: Expr, u: Unit, f: Frame, s: Store, names: Naming)
    requires Represents(s, u, f, names) && TypeOf(e, u).Some?
    ensures Wide(LowerExpr(e, u, names), s) == WideExpr(e, u)
  {
    match e
    case Literal(_) =>
    case BoolLiteral(_) =>
    case Variable(p) => assert p in f;
    case Unary(_, a) => WidthIsPredicted(a, u, f, s, names);
    case Binary(_, l, r) =>
      WidthIsPredicted(l, u, f, s, names);
      WidthIsPredicted(r, u, f, s, names);
    case Call(op, args) => ChainIsNarrow(op, LowerAll(args, u, names), s);
    case Mux(k, inputs) =>
      forall i | 0 <= i < |inputs| ensures Wide(LowerAll(inputs, u, names)[i], s) == WideExpr(inputs[i], u) {
        WidthIsPredicted(inputs[i], u, f, s, names);
      }
      MuxWidth(LowerExpr(k, u, names), LowerAll(inputs, u, names), 0, inputs, u, s);
      assert inputs[0..] == inputs;
  }

  lemma ChainIsNarrow(op: BinaryOp, cs: seq<CExpr>, s: Store)
    requires |cs| >= 2 && IsCompare(op)
    ensures !Wide(ChainExpr(op, cs), s)
  {
  }

  lemma {:induction false} MuxWidth(k: CExpr, cs: seq<CExpr>, position: nat, inputs: seq<Expr>, u: Unit, s: Store)
    requires position < |cs| == |inputs|
    requires forall i :: 0 <= i < |inputs| ==> Wide(cs[i], s) == WideExpr(inputs[i], u)
    ensures Wide(MuxExpr(k, cs, position), s) == AnyWide(inputs[position..], u)
    decreases |cs| - position
  {
    assert inputs[position..][0] == inputs[position] && inputs[position..][1..] == inputs[position + 1..];
    if position + 1 < |cs| {
      MuxWidth(k, cs, position + 1, inputs, u, s);
    } else {
      assert inputs[position + 1..] == [];
    }
  }

  lemma {:induction false} TotalHasValue(e: Expr, u: Unit, f: Frame)
    requires IsFrame(u, f) && Total(e) && TypeOf(e, u).Some?
    ensures Eval(e, f).Some? && Some(TypeOfValue(Eval(e, f).value)) == TypeOf(e, u)
  {
    match e
    case Literal(_) =>
    case BoolLiteral(_) =>
    case Variable(p) =>
    case Unary(_, a) => TotalHasValue(a, u, f);
    case Binary(_, l, r) =>
      TotalHasValue(l, u, f);
      TotalHasValue(r, u, f);
    case Call(_, args) =>
      forall i | 0 <= i < |args| ensures Eval(args[i], f).Some? { TotalHasValue(args[i], u, f); }
  }

  // The meaning of C's tests and conditionals.
  lemma {:induction false} ChainMeans(op: BinaryOp, cs: seq<CExpr>, vs: seq<Value>, s: Store, locals: Locals)
    requires IsCompare(op) && |cs| == |vs| >= 2
    requires forall k :: 0 <= k < |cs| ==> EvalC(cs[k], s, locals) == Some(Num(vs[k]))
    ensures EvalC(ChainExpr(op, cs), s, locals) == Some(Bit(Chained(op, vs)))
  {
    var n := |cs| - 1;
    var last := CBin(Arithmetic(op), cs[n - 1], cs[n]);
    assert EvalC(last, s, locals) == Some(Bit(Compare(op, Num(vs[n - 1]), Num(vs[n - 1 + 1]))));
    if |cs| > 2 {
      ChainMeans(op, cs[..n], vs[..n], s, locals);
      ChainedFront(op, vs);
    }
  }

  lemma ChainedFront(op: BinaryOp, vs: seq<Value>)
    requires IsCompare(op) && |vs| > 2
    ensures var n := |vs| - 1; Chained(op, vs) <==> Chained(op, vs[..n]) && Compare(op, Num(vs[n - 1]), Num(vs[n]))
  {
    var n := |vs| - 1;
    if Chained(op, vs) {
      assert Compare(op, Num(vs[n - 1]), Num(vs[n - 1 + 1]));
    }
  }

  lemma {:induction false} ClassifiedIsBool(e: Expr, u: Unit)
    requires IsBoolForC(e, u) && TypeOf(e, u).Some?
    ensures TypeOf(e, u) == Some(TBool)
  {
    match e
    case Unary(_, a) => ClassifiedIsBool(a, u);
    case Binary(op, l, r) => if !IsCompare(op) { ClassifiedIsBool(l, u); }
    case _ =>
  }

  // The value of an expression that C computes in 32 bits is one of those possible.
  lemma {:induction false} ValueIsPossible(e: Expr, u: Unit, f: Frame)
    requires TypeOf(e, u) == Some(TInt) && !WideExpr(e, u) && Eval(e, f).Some?
    ensures Eval(e, f).value.VInt? && Eval(e, f).value.n in Possible(e)
  {
    hide Bitwise, Exact;
    match e
    case Literal(_) =>
    case Unary(_, a) =>
      NarrowOperand(a, u);
      ValueIsPossible(a, u, f);
    case Binary(_, l, r) =>
      NarrowOperand(l, u);
      ValueIsPossible(l, u, f);
      ValueIsPossible(r, u, f);
    case Mux(k, inputs) =>
      var chosen := Eval(k, f).value.n;
      NoneWide(inputs, u, chosen);
      ValueIsPossible(inputs[chosen], u, f);
  }

  lemma NarrowOperand(e: Expr, u: Unit)
    requires TypeOf(e, u) == Some(TInt)
    ensures !IsBoolForC(e, u)
  {
    if IsBoolForC(e, u) { ClassifiedIsBool(e, u); }
  }

  lemma {:induction false} NoneWide(es: seq<Expr>, u: Unit, k: nat)
    requires !AnyWide(es, u) && k < |es|
    ensures !WideExpr(es[k], u)
  {
    if k == 0 {
    } else {
      NoneWide(es[1..], u, k - 1);
    }
  }

  // The value of a subexpression, in both languages.
  ghost predicate Agrees(e: Expr, u: Unit, f: Frame, s: Store, names: Naming, locals: Locals)
  {
    && Eval(e, f).Some? && Some(TypeOfValue(Eval(e, f).value)) == TypeOf(e, u)
    && EvalC(LowerExpr(e, u, names), s, locals) == Some(Num(Eval(e, f).value))
  }

  lemma NegationMeans(e: Expr, u: Unit, f: Frame, s: Store, names: Naming, locals: Locals)
    requires Represents(s, u, f, names) && e.Unary? && e.uop.Neg?
    requires TypeOf(e, u).Some? && Supported(e, u) && Eval(e, f).Some?
    requires Agrees(e.expr, u, f, s, names, locals)
    ensures Agrees(e, u, f, s, names, locals)
  {
    var a := e.expr;
    WidthIsPredicted(a, u, f, s, names);
    if !WideExpr(a, u) { ValueIsPossible(a, u, f); }
    NegationValue(LowerExpr(a, u, names), s, locals, Eval(a, f).value);
    assert LowerExpr(e, u, names) == CUn(Minus, LowerExpr(a, u, names));
    hide Represents, Total, IsBoolForC, Wide, Possible, LowerExpr, EvalC;
    assert OperationFits(e, u);
  }

  lemma NegationValue(c: CExpr, s: Store, locals: Locals, v: Value)
    requires EvalC(c, s, locals) == Some(Num(v))
    ensures EvalC(CUn(Minus, c), s, locals) == Checked(-Num(v), Limit(Wide(c, s)))
  {
  }

  lemma ComplementMeans(e: Expr, u: Unit, f: Frame, s: Store, names: Naming, locals: Locals)
    requires e.Unary? && e.uop.Not?
    requires TypeOf(e, u).Some? && Supported(e, u) && Eval(e, f).Some?
    requires Agrees(e.expr, u, f, s, names, locals)
    ensures Agrees(e, u, f, s, names, locals)
  {
    hide Bitwise, Arith, Total, IsBoolForC, Wide, OperationFits;
    if IsBoolForC(e.expr, u) { ClassifiedIsBool(e.expr, u); }
  }

  // Both operands are seen to be BOOL: `||`, `!=` or `&&`.
  lemma ShortCircuitMeans(e: Expr, u: Unit, f: Frame, s: Store, names: Naming, locals: Locals)
    requires e.Binary? && IsLogic(e.op) && IsBoolForC(e.left, u) && IsBoolForC(e.right, u)
    requires TypeOf(e, u).Some? && Eval(e, f).Some?
    requires Agrees(e.left, u, f, s, names, locals)
    requires Eval(e.right, f).Some? ==> Agrees(e.right, u, f, s, names, locals)
    ensures Agrees(e, u, f, s, names, locals)
  {
    hide Bitwise, Wide, Arith, IsBoolForC;
    assert TypeOf(e.left, u) == Some(TBool) by { ClassifiedIsBool(e.left, u); }
  }

  // Otherwise the bit operators, which evaluate both operands.
  lemma BitOperatorMeans(e: Expr, u: Unit, f: Frame, s: Store, names: Naming, locals: Locals)
    requires e.Binary? && IsLogic(e.op) && !(IsBoolForC(e.left, u) && IsBoolForC(e.right, u))
    requires TypeOf(e, u).Some? && Eval(e, f).Some?
    requires Agrees(e.left, u, f, s, names, locals) && Agrees(e.right, u, f, s, names, locals)
    ensures Agrees(e, u, f, s, names, locals)
  {
    hide Bitwise, Wide, Arith, IsBoolForC;
    var a, b := Eval(e.left, f).value, Eval(e.right, f).value;
    if a.VBool? { BitwiseOnBits(e.op, a.b, b.b); }
  }

  lemma LogicMeans(e: Expr, u: Unit, f: Frame, s: Store, names: Naming, locals: Locals)
    requires Represents(s, u, f, names) && e.Binary? && IsLogic(e.op)
    requires TypeOf(e, u).Some? && Supported(e, u) && Eval(e, f).Some?
    requires Agrees(e.left, u, f, s, names, locals)
    requires Eval(e.right, f).Some? ==> Agrees(e.right, u, f, s, names, locals)
    ensures Agrees(e, u, f, s, names, locals)
  {
    var l, r := e.left, e.right;
    if IsBoolForC(l, u) && IsBoolForC(r, u) {
      ShortCircuitMeans(e, u, f, s, names, locals);
    } else {
      hide LowerExpr, EvalC, IsBoolForC, Bitwise, OperationFits;
      if Eval(r, f).None? {
        TotalHasValue(r, u, f);
      }
      BitOperatorMeans(e, u, f, s, names, locals);
    }
  }

  lemma CompareMeans(e: Expr, u: Unit, f: Frame, s: Store, names: Naming, locals: Locals)
    requires e.Binary? && IsCompare(e.op) && TypeOf(e, u).Some? && Eval(e, f).Some?
    requires Agrees(e.left, u, f, s, names, locals) && Agrees(e.right, u, f, s, names, locals)
    ensures Agrees(e, u, f, s, names, locals)
  {
  }

  lemma ArithmeticMeans(e: Expr, u: Unit, f: Frame, s: Store, names: Naming, locals: Locals)
    requires Represents(s, u, f, names) && e.Binary? && IsArith(e.op)
    requires TypeOf(e, u).Some? && Supported(e, u) && Eval(e, f).Some?
    requires Agrees(e.left, u, f, s, names, locals) && Agrees(e.right, u, f, s, names, locals)
    ensures Agrees(e, u, f, s, names, locals)
  {
    hide IsFrame, Holds;
    var l, r := e.left, e.right;
    WidthIsPredicted(e, u, f, s, names);
    if !WideExpr(e, u) {
      ValueIsPossible(l, u, f);
      ValueIsPossible(r, u, f);
      assert NarrowFits(e.op, Eval(l, f).value.n, Eval(r, f).value.n);
      Narrower(e.op, Eval(l, f).value.n, Eval(r, f).value.n);
    }
  }

  lemma LeafMeans(e: Expr, u: Unit, f: Frame, s: Store, names: Naming, locals: Locals)
    requires Represents(s, u, f, names) && (e.Literal? || e.BoolLiteral? || e.Variable?)
    requires TypeOf(e, u).Some? && Eval(e, f).Some?
    ensures Agrees(e, u, f, s, names, locals)
  {
  }

  lemma CallMeans(e: Expr, u: Unit, f: Frame, s: Store, names: Naming, locals: Locals)
    requires e.Call? && TypeOf(e, u).Some? && Eval(e, f).Some?
    requires forall a <- e.args :: Agrees(a, u, f, s, names, locals)
    ensures Agrees(e, u, f, s, names, locals)
  {
    var cs, vs := LowerAll(e.args, u, names), EvalAll(e.args, f).value;
    forall k | 0 <= k < |cs| ensures EvalC(cs[k], s, locals) == Some(Num(vs[k])) {
      assert Agrees(e.args[k], u, f, s, names, locals);
    }
    ChainMeans(e.cop, cs, vs, s, locals);
  }

  lemma ChoiceMeans(e: Expr, chosen: nat, u: Unit, f: Frame, s: Store, names: Naming, locals: Locals)
    requires e.Mux? && TypeOf(e, u).Some? && Eval(e, f).Some?
    requires Eval(e.index, f) == Some(VInt(chosen)) && chosen < |e.inputs|
    requires Agrees(e.index, u, f, s, names, locals) && Agrees(e.inputs[chosen], u, f, s, names, locals)
    ensures Agrees(e, u, f, s, names, locals)
  {
    MuxFallsThrough(LowerExpr(e.index, u, names), LowerAll(e.inputs, u, names), 0, chosen, s, locals);
  }

  // The emitted expression has the source expression's value, and its type.
  lemma {:induction false} ExpressionMeans(e: Expr, u: Unit, f: Frame, s: Store, names: Naming, locals: Locals)
    requires Represents(s, u, f, names)
    requires TypeOf(e, u).Some? && Supported(e, u) && Eval(e, f).Some?
    ensures Agrees(e, u, f, s, names, locals)
    decreases e
  {
    hide EvalC, LowerExpr, Agrees, Represents, OperationFits, Total;
    match e
    case Unary(op, a) =>
      ExpressionMeans(a, u, f, s, names, locals);
      if op.Neg? {
        NegationMeans(e, u, f, s, names, locals);
      } else {
        ComplementMeans(e, u, f, s, names, locals);
      }
    case Binary(op, l, r) =>
      ExpressionMeans(l, u, f, s, names, locals);
      if Eval(r, f).Some? { ExpressionMeans(r, u, f, s, names, locals); }
      if IsLogic(op) {
        LogicMeans(e, u, f, s, names, locals);
      } else if IsArith(op) {
        ArithmeticMeans(e, u, f, s, names, locals);
      } else {
        CompareMeans(e, u, f, s, names, locals);
      }
    case Call(op, args) =>
      forall k | 0 <= k < |args| ensures Agrees(args[k], u, f, s, names, locals) {
        ExpressionMeans(args[k], u, f, s, names, locals);
      }
      CallMeans(e, u, f, s, names, locals);
    case Mux(k, inputs) =>
      var chosen := Eval(k, f).value.n;
      ExpressionMeans(k, u, f, s, names, locals);
      ExpressionMeans(inputs[chosen], u, f, s, names, locals);
      ChoiceMeans(e, chosen, u, f, s, names, locals);
    case _ => LeafMeans(e, u, f, s, names, locals);
  }

  // ----- where the width matters -----

  predicate PlainArithmetic(e: Expr) {
    match e
    case Literal(_) => true
    case Variable(_) => true
    case Unary(op, a) => op.Neg? && PlainArithmetic(a)
    case Binary(op, l, r) => IsArith(op) && PlainArithmetic(l) && PlainArithmetic(r)
    case _ => false
  }

  lemma {:induction false} OnlyPossible(e: Expr, u: Unit, f: Frame)
    requires PlainArithmetic(e) && TypeOf(e, u) == Some(TInt) && !WideExpr(e, u) && Eval(e, f).Some?
    ensures Eval(e, f).value.VInt? && Possible(e) == {Eval(e, f).value.n}
  {
    hide Exact;
    match e
    case Literal(_) =>
    case Unary(_, a) => OnlyPossible(a, u, f);
    case Binary(op, l, r) =>
      OnlyPossible(l, u, f);
      OnlyPossible(r, u, f);
      var a, b := Eval(l, f).value.n, Eval(r, f).value.n;
      assert a in Possible(l) && b in Possible(r) && Exact(op, a, b) == Some(Eval(e, f).value.n);
  }

  lemma OverflowsInC(e: Expr, u: Unit, f: Frame, s: Store, names: Naming, locals: Locals)
    requires Represents(s, u, f, names) && PlainArithmetic(e) && !OperationFits(e, u)
    requires TypeOf(e, u) == Some(TInt) && Eval(e, f).Some?
    requires e.Unary? ==> Agrees(e.expr, u, f, s, names, locals)
    requires e.Binary? ==> Agrees(e.left, u, f, s, names, locals) && Agrees(e.right, u, f, s, names, locals)
    ensures e.Unary? || e.Binary? ==> EvalC(LowerExpr(e, u, names), s, locals).None?
  {
    hide IsFrame, Holds, Bitwise;
    WidthIsPredicted(e, u, f, s, names);
    if e.Unary? { OnlyPossible(e.expr, u, f); }
    if e.Binary? {
      OnlyPossible(e.left, u, f);
      OnlyPossible(e.right, u, f);
    }
  }

  lemma {:induction false} UnsupportedOverflows(e: Expr, u: Unit, f: Frame, s: Store, names: Naming, locals: Locals)
    requires Represents(s, u, f, names) && PlainArithmetic(e) && !Supported(e, u)
    requires TypeOf(e, u) == Some(TInt) && Eval(e, f).Some?
    ensures EvalC(LowerExpr(e, u, names), s, locals).None?
  {
    hide Represents, OperationFits, Agrees, Total;
    match e
    case Unary(_, a) =>
      if Supported(a, u) {
        ExpressionMeans(a, u, f, s, names, locals);
        OverflowsInC(e, u, f, s, names, locals);
      } else {
        UnsupportedOverflows(a, u, f, s, names, locals);
      }
    case Binary(_, l, r) =>
      if !Supported(l, u) {
        UnsupportedOverflows(l, u, f, s, names, locals);
      } else if !Supported(r, u) {
        UnsupportedOverflows(r, u, f, s, names, locals);
      } else {
        ExpressionMeans(l, u, f, s, names, locals);
        ExpressionMeans(r, u, f, s, names, locals);
        OverflowsInC(e, u, f, s, names, locals);
      }
    case _ =>
  }

  // C computes an integer expression right exactly when every operation it
  // carries out in 32 bits, those on small literals only, has a 32-bit result.
  lemma ArithmeticMeansIffSupported(e: Expr, u: Unit, f: Frame, s: Store, names: Naming, locals: Locals)
    requires Represents(s, u, f, names) && PlainArithmetic(e)
    requires TypeOf(e, u) == Some(TInt) && Eval(e, f).Some?
    ensures EvalC(LowerExpr(e, u, names), s, locals) == Some(Num(Eval(e, f).value)) <==> Supported(e, u)
  {
    hide Represents, OperationFits, Supported, PlainArithmetic, Eval, EvalC, LowerExpr;
    if Supported(e, u) {
      ExpressionMeans(e, u, f, s, names, locals);
    } else {
      UnsupportedOverflows(e, u, f, s, names, locals);
    }
  }

  // 100000 * 100000 is 10^10 in Structured Text and overflows an int in C.
  lemma LiteralProductOverflows(u: Unit, f: Frame, s: Store, names: Naming, locals: Locals)
    ensures var e := Binary(Mul, Literal(100000), Literal(100000));
      Eval(e, f) == Some(VInt(10_000_000_000)) && EvalC(LowerExpr(e, u, names), s, locals).None?
  {
    assert Exact(Mul, 100000, 100000) == Some(10_000_000_000);
    var c := CInt(100000);
    var product := CBin(Arithmetic(Mul), c, c);
    assert EvalC(c, s, locals) == Some(100000) && !Wide(c, s) && !Wide(product, s);
    assert EvalC(product, s, locals) == Arith(Mul, 100000, 100000, INT32);
  }

  // NOT of a BOOL is right in C exactly when the classifier sees that it is one.
  lemma NotMeansIffClassified(a: Expr, u: Unit, f: Frame, s: Store, names: Naming, locals: Locals)
    requires Represents(s, u, f, names)
    requires TypeOf(a, u) == Some(TBool) && Supported(a, u) && Eval(a, f).Some?
    ensures var e := Unary(Not, a);
      EvalC(LowerExpr(e, u, names), s, locals) == Some(Num(Eval(e, f).value)) <==> IsBoolForC(a, u)
  {
    hide Represents, LowerExpr, IsBoolForC, Supported, TypeOf;
    ExpressionMeans(a, u, f, s, names, locals);
    NotLowers(a, u, names);
  }

  lemma NotLowers(a: Expr, u: Unit, names: Naming)
    ensures LowerExpr(Unary(Not, a), u, names) == CUn(if IsBoolForC(a, u) then Bang else Tilde, LowerExpr(a, u, names))
  {
  }

  // NOT of a BOOL field of an instance is emitted as `~` and never turns false.
  lemma NotOfInstanceField(u: Unit, f: Frame, s: Store, names: Naming, locals: Locals, path: Path)
    requires Represents(s, u, f, names)
    requires TypeAt(u, path) == Some(TBool) && |path| > 1 && f[path] == VBool(true)
    ensures var e := Unary(Not, Variable(path));
      Eval(e, f) == Some(VBool(false)) && EvalC(LowerExpr(e, u, names), s, locals) == Some(-2)
  {
    assert path in f;
  }

  // MUX with any index: C gives the last input where there is none of that
  // number, and Structured Text has no value; in range both give the input.
  lemma MuxAtAnyIndex(e: Expr, k: int, u: Unit, f: Frame, s: Store, names: Naming, locals: Locals)
    requires Represents(s, u, f, names) && e.Mux? && TypeOf(e, u).Some? && Supported(e, u)
    requires Eval(e.index, f) == Some(VInt(k)) && EvalAll(e.inputs, f).Some?
    ensures Eval(e, f).Some? <==> 0 <= k < |e.inputs|
    ensures var chosen := if 0 <= k < |e.inputs| then k else |e.inputs| - 1;
      EvalC(LowerExpr(e, u, names), s, locals) == Some(Num(EvalAll(e.inputs, f).value[chosen]))
  {
    hide Represents, EvalC, Wide, TypeOf, Supported;
    var n, c, cs := |e.inputs|, LowerExpr(e.index, u, names), LowerAll(e.inputs, u, names);
    assert 0 < n < INT64 && TypeOf(e.index, u).Some? && Supported(e.index, u) by { MuxParts(e, u); }
    var chosen := if 0 <= k < n then k else n - 1;
    assert TypeOf(e.inputs[chosen], u).Some? && Supported(e.inputs[chosen], u) by { MuxParts(e, u); }
    ExpressionMeans(e.index, u, f, s, names, locals);
    ExpressionMeans(e.inputs[chosen], u, f, s, names, locals);
    MuxFallsThrough(c, cs, 0, k, s, locals);
  }

  lemma MuxParts(e: Expr, u: Unit)
    requires e.Mux? && TypeOf(e, u).Some? && Supported(e, u)
    ensures 0 < |e.inputs| < INT64 && TypeOf(e.index, u).Some? && Supported(e.index, u)
    ensures forall i :: 0 <= i < |e.inputs| ==> TypeOf(e.inputs[i], u).Some? && Supported(e.inputs[i], u)
  {
  }

  lemma {:induction false} MuxFallsThrough(k: CExpr, cs: seq<CExpr>, position: nat, index: int, s: Store,
      locals: Locals)
    requires position < |cs| < INT64 && EvalC(k, s, locals) == Some(index)
    ensures EvalC(MuxExpr(k, cs, position), s, locals)
            == EvalC(cs[if position <= index < |cs| then index else |cs| - 1], s, locals)
    decreases |cs| - position
  {
    var test := CBin(Arithmetic(Eq), k, CInt(position));
    assert EvalC(test, s, locals) == Some(Bit(Compare(Eq, index, position)));
    if position < |cs| - 1 && position != index {
      MuxFallsThrough(k, cs, position + 1, index, s, locals);
    }
  }
}
