/**
 * The text of an emitted expression, and the tree that C reads from it: the
 * lowered tree, unless a comparison call of three or more arguments, which is
 * printed without parentheses, stands where it is grouped differently.
 */
module Printer {
  import opened Wrappers
  import opened Values
  import opened StructuredText
  import opened CCode
  import opened Lowering
  import opened CParser

  // ----- printing -----

  // `expr_to_c_state`, and `expr_to_c_for_user_fb` inside a block, which differs
  // in the negation only.
  function Tokens(e: Expr, u: Unit, names: Naming, inBlock: bool): seq<Token> {
    match e
    case Literal(n) => if n < 0 then [Operator(Sub), Number(-n)] else [Number(n)]
    case BoolLiteral(b) => [Truth(b)]
    case Variable(p) => [FieldName(names(p))]
    case Unary(Neg, a) =>
      if inBlock then [LeftPar] + Minused(Tokens(a, u, names, inBlock)) + [RightPar]
      else [Operator(Sub)] + ([LeftPar] + Tokens(a, u, names, inBlock) + [RightPar])
    case Unary(Not, a) =>
      [if IsBoolForC(a, u) then BangT else TildeT] + ([LeftPar] + Tokens(a, u, names, inBlock) + [RightPar])
    case Binary(op, l, r) =>
      [LeftPar]
      + (Tokens(l, u, names, inBlock)
         + [OperatorToken(OperatorFor(op, IsBoolForC(l, u) && IsBoolForC(r, u)))]
         + Tokens(r, u, names, inBlock))
      + [RightPar]
    case Call(op, args) =>
      if |args| < 2 then NoText() else JoinAnd(Pairs(op, AllTokens(args, u, names, inBlock)))
    case Mux(k, inputs) =>
      if inputs == [] then NoText()
      else MuxTokens(Tokens(k, u, names, inBlock), AllTokens(inputs, u, names, inBlock), 0)
  }

  // The text of a call that is left as it is.
  function NoText(): seq<Token> {
    [LocalName("")]
  }

  function AllTokens(es: seq<Expr>, u: Unit, names: Naming, inBlock: bool): (ts: seq<seq<Token>>)
    ensures |ts| == |es| && forall k :: 0 <= k < |es| ==> ts[k] == Tokens(es[k], u, names, inBlock)
  {
    if es == [] then [] else [Tokens(es[0], u, names, inBlock)] + AllTokens(es[1..], u, names, inBlock)
  }

  // `(-` in front of a text: two minus signs make one token.
  function Minused(ts: seq<Token>): seq<Token> {
    if ts != [] && ts[0] == Operator(Sub) then [MinusMinus] + ts[1..] else [Operator(Sub)] + ts
  }

  // (a op b), (b op c), ...
  function Pairs(op: BinaryOp, ts: seq<seq<Token>>): (pairs: seq<seq<Token>>)
    requires |ts| >= 2
    ensures |pairs| == |ts| - 1
    ensures forall k :: 0 <= k < |pairs| ==> pairs[k] == [LeftPar] + (ts[k] + [Operator(op)] + ts[k + 1]) + [RightPar]
  {
    seq(|ts| - 1, k requires 0 <= k < |ts| - 1 => [LeftPar] + (ts[k] + [Operator(op)] + ts[k + 1]) + [RightPar])
  }

  // ((k) == 0 ? a : ((k) == 1 ? b : c))
  function MuxTokens(index: seq<Token>, inputs: seq<seq<Token>>, position: nat): seq<Token>
    requires position < |inputs|
    decreases |inputs| - position
  {
    if position == |inputs| - 1 then inputs[position]
    else
      [LeftPar]
      + (MuxTest(index, position) + [Question] + inputs[position] + [Colon] + MuxTokens(index, inputs, position + 1))
      + [RightPar]
  }

  function MuxTest(index: seq<Token>, position: nat): seq<Token> {
    ([LeftPar] + index + [RightPar]) + [Operator(Eq)] + [Number(position)]
  }

  // `mux_to_c`, from the last input back.
  method MuxToC(args: seq<seq<Token>>) returns (text: Option<seq<Token>>)
    ensures text == if |args| < 2 then None else Some(MuxTokens(args[0], args[1..], 0))
  {
    if |args| < 2 { return None; }
    var index, inputs := args[0], args[1..];
    var expr := inputs[|inputs| - 1];
    for position := |inputs| - 1 downto 0
      invariant expr == MuxTokens(index, inputs, position)
    {
      expr := [LeftPar] + (MuxTest(index, position) + [Question] + inputs[position] + [Colon] + expr) + [RightPar];
    }
    return Some(expr);
  }

  // `compare_chain_to_c`, window by window.
  method CompareChainToC(op: BinaryOp, args: seq<seq<Token>>) returns (text: Option<seq<Token>>)
    ensures text == if |args| < 2 then None else Some(JoinAnd(Pairs(op, args)))
  {
    if |args| < 2 { return None; }
    var pairs := Pairs(op, args);
    var chain := [];
    for k := 0 to |args| - 1
      invariant k > 0 ==> chain == JoinAnd(pairs[..k])
      invariant k == 0 ==> chain == []
    {
      var pair := [LeftPar] + (args[k] + [Operator(op)] + args[k + 1]) + [RightPar];
      assert pairs[..k + 1] == pairs[..k] + [pairs[k]];
      if k > 0 {
        JoinAndAppend(pairs[..k], [pairs[k]]);
        chain := chain + [AndAndT] + pair;
      } else {
        assert pairs[..0] + [pairs[0]] == [pairs[0]];
        chain := pair;
      }
    }
    assert pairs[..|args| - 1] == pairs;
    return Some(chain);
  }

  // ----- reading -----

  // The unary texts that `&&` joins in an expression's text: more than one only
  // for comparison calls with three or more arguments.
  function Units(e: Expr, u: Unit, names: Naming, inBlock: bool): (units: seq<seq<Token>>)
    requires HasArity(e)
    ensures units != []
  {
    match e
    case Call(op, args) => Pairs(op, AllTokens(args, u, names, inBlock))
    case Mux(_, inputs) => if |inputs| == 1 then Units(inputs[0], u, names, inBlock) else [Tokens(e, u, names, inBlock)]
    case _ => [Tokens(e, u, names, inBlock)]
  }

  // The trees that C reads from them.
  function Spine(e: Expr, u: Unit, names: Naming, inBlock: bool): (es: seq<CExpr>)
    requires HasArity(e)
    ensures es != []
  {
    match e
    case Unary(Neg, a) =>
      var s := Spine(a, u, names, inBlock);
      [if inBlock then FoldAnd([CUn(Minus, s[0])] + s[1..]) else CUn(Minus, FoldAnd(s))]
    case Unary(Not, a) => [CUn(if IsBoolForC(a, u) then Bang else Tilde, FoldAnd(Spine(a, u, names, inBlock)))]
    case Binary(op, l, r) =>
      [Grouped(OperatorFor(op, IsBoolForC(l, u) && IsBoolForC(r, u)), Spine(l, u, names, inBlock),
          Spine(r, u, names, inBlock))]
    case Call(op, args) => PairTrees(op, Spines(args, u, names, inBlock))
    case Mux(k, inputs) =>
      if |inputs| == 1 then Spine(inputs[0], u, names, inBlock)
      else [MuxExpr(FoldAnd(Spine(k, u, names, inBlock)), FoldAll(Spines(inputs, u, names, inBlock)), 0)]
    case _ => [LowerExpr(e, u, names)]
  }

  function Spines(es: seq<Expr>, u: Unit, names: Naming, inBlock: bool): (ss: seq<seq<CExpr>>)
    requires forall e <- es :: HasArity(e)
    ensures |ss| == |es| && forall k :: 0 <= k < |es| ==> ss[k] == Spine(es[k], u, names, inBlock) && ss[k] != []
  {
    if es == [] then [] else [Spine(es[0], u, names, inBlock)] + Spines(es[1..], u, names, inBlock)
  }

  function PairTrees(op: BinaryOp, ss: seq<seq<CExpr>>): (pairs: seq<CExpr>)
    requires |ss| >= 2 && forall k :: 0 <= k < |ss| ==> ss[k] != []
    ensures |pairs| == |ss| - 1
    ensures forall k :: 0 <= k < |pairs| ==> pairs[k] == Grouped(Arithmetic(op), ss[k], ss[k + 1])
  {
    seq(|ss| - 1, k requires 0 <= k < |ss| - 1 => Grouped(Arithmetic(op), ss[k], ss[k + 1]))
  }

  function FoldAll(ss: seq<seq<CExpr>>): (es: seq<CExpr>)
    requires forall k :: 0 <= k < |ss| ==> ss[k] != []
    ensures |es| == |ss| && forall k :: 0 <= k < |ss| ==> es[k] == FoldAnd(ss[k])
  {
    seq(|ss|, k requires 0 <= k < |ss| => FoldAnd(ss[k]))
  }

  // The tree that C reads.
  function Read(e: Expr, u: Unit, names: Naming, inBlock: bool): CExpr
    requires HasArity(e)
  {
    FoldAnd(Spine(e, u, names, inBlock))
  }

  ghost predicate UnitsRead(e: Expr, u: Unit, names: Naming, inBlock: bool)
    requires HasArity(e)
  {
    && Tokens(e, u, names, inBlock) == JoinAnd(Units(e, u, names, inBlock))
    && AllUnary(Units(e, u, names, inBlock), Spine(e, u, names, inBlock))
  }

  lemma ReadsExpr(e: Expr, u: Unit, names: Naming, inBlock: bool)
    requires HasArity(e) && UnitsRead(e, u, names, inBlock)
    ensures IsConjunction(Tokens(e, u, names, inBlock), Read(e, u, names, inBlock))
    ensures IsExpr(Tokens(e, u, names, inBlock), Read(e, u, names, inBlock))
  {
    hide Tokens, Units, Spine, IsConjunction, IsExpr, IsUnary, IsTight;
    AllUnaryIsTight(Units(e, u, names, inBlock), Spine(e, u, names, inBlock));
    JoinedAnd(Units(e, u, names, inBlock), Spine(e, u, names, inBlock));
    ConjunctionIsExpr(Tokens(e, u, names, inBlock), Read(e, u, names, inBlock));
  }

  lemma LeafReads(e: Expr, u: Unit, names: Naming, inBlock: bool)
    requires e.Literal? || e.BoolLiteral? || e.Variable?
    ensures UnitsRead(e, u, names, inBlock)
  {
    var t, c := Tokens(e, u, names, inBlock), LowerExpr(e, u, names);
    forall k: seq<Token> ensures ParseUnary(t + k) == Some(Parsed(c, k)) {
      if e.Literal? && e.n < 0 {
        assert t + k == [Operator(Sub)] + ([Number(-e.n)] + k);
        PrefixThen(Operator(Sub), Minus, [Number(-e.n)] + k);
        assert ([Number(-e.n)] + k)[1..] == k;
      } else {
        assert (t + k)[1..] == k;
      }
    }
  }

  // One unary text makes a text that reads as its tree.
  lemma SingleReads(e: Expr, u: Unit, names: Naming, inBlock: bool)
    requires HasArity(e) && !e.Call? && (e.Mux? ==> |e.inputs| > 1)
    requires |Spine(e, u, names, inBlock)| == 1 && IsUnary(Tokens(e, u, names, inBlock), Spine(e, u, names, inBlock)[0])
    ensures UnitsRead(e, u, names, inBlock)
  {
  }

  lemma NegationReads(e: Expr, u: Unit, names: Naming)
    requires HasArity(e) && e.Unary? && e.uop.Neg? && UnitsRead(e.expr, u, names, false)
    ensures UnitsRead(e, u, names, false)
  {
    hide IsUnary, IsConjunction, IsExpr, UnitsRead;
    var t, c := Tokens(e.expr, u, names, false), Read(e.expr, u, names, false);
    ReadsExpr(e.expr, u, names, false);
    ParenthesesAreUnary(t, c);
    PrefixIsUnary(Operator(Sub), Minus, [LeftPar] + t + [RightPar], c);
    SingleReads(e, u, names, false);
  }

  // In a block the minus sign is inside the parentheses: it takes the first
  // text only.
  lemma MinusedReads(t: seq<Token>, us: seq<seq<Token>>, es: seq<CExpr>)
    requires AllUnary(us, es) && t == JoinAnd(us)
    ensures IsUnary([LeftPar] + ([Operator(Sub)] + t) + [RightPar], FoldAnd([CUn(Minus, es[0])] + es[1..]))
  {
    hide IsUnary, IsTight, IsConjunction, IsExpr;
    var vs, fs := [[Operator(Sub)] + us[0]] + us[1..], [CUn(Minus, es[0])] + es[1..];
    PrefixIsUnary(Operator(Sub), Minus, us[0], es[0]);
    assert AllUnary(vs, fs);
    AllUnaryIsTight(vs, fs);
    JoinedAnd(vs, fs);
    assert vs[1..] == us[1..];
    assert JoinAnd(vs) == [Operator(Sub)] + t;
    ConjunctionIsExpr(JoinAnd(vs), FoldAnd(fs));
    ParenthesesAreUnary([Operator(Sub)] + t, FoldAnd(fs));
  }

  lemma BlockNegationReads(e: Expr, u: Unit, names: Naming)
    requires HasArity(e) && e.Unary? && e.uop.Neg? && UnitsRead(e.expr, u, names, true)
    requires var t := Tokens(e.expr, u, names, true); t != [] && t[0] != Operator(Sub)
    ensures UnitsRead(e, u, names, true)
  {
    hide IsUnary;
    MinusedReads(Tokens(e.expr, u, names, true), Units(e.expr, u, names, true), Spine(e.expr, u, names, true));
    SingleReads(e, u, names, true);
  }

  lemma ComplementReads(e: Expr, u: Unit, names: Naming, inBlock: bool)
    requires HasArity(e) && e.Unary? && e.uop.Not? && UnitsRead(e.expr, u, names, inBlock)
    ensures UnitsRead(e, u, names, inBlock)
  {
    hide IsUnary, IsConjunction, IsExpr, UnitsRead;
    var a := e.expr;
    var t, b := Tokens(a, u, names, inBlock), IsBoolForC(a, u);
    ReadsExpr(a, u, names, inBlock);
    ParenthesesAreUnary(t, Read(a, u, names, inBlock));
    PrefixIsUnary(if b then BangT else TildeT, if b then Bang else Tilde,
                  [LeftPar] + t + [RightPar], Read(a, u, names, inBlock));
    SingleReads(e, u, names, inBlock);
  }

  lemma BinaryReads(e: Expr, u: Unit, names: Naming, inBlock: bool)
    requires HasArity(e) && e.Binary? && UnitsRead(e.left, u, names, inBlock) && UnitsRead(e.right, u, names, inBlock)
    ensures UnitsRead(e, u, names, inBlock)
  {
    hide IsUnary, IsExpr;
    var l, r := e.left, e.right;
    var op := OperatorFor(e.op, IsBoolForC(l, u) && IsBoolForC(r, u));
    var a, b := Spine(l, u, names, inBlock), Spine(r, u, names, inBlock);
    GroupedIsExpr(Units(l, u, names, inBlock), a, op, Units(r, u, names, inBlock), b);
    ParenthesesAreUnary(Tokens(l, u, names, inBlock) + [OperatorToken(op)] + Tokens(r, u, names, inBlock),
        Grouped(op, a, b));
    SingleReads(e, u, names, inBlock);
  }

  lemma CallParts(e: Expr, u: Unit, names: Naming, inBlock: bool)
    requires HasArity(e) && e.Call?
    ensures Tokens(e, u, names, inBlock) == JoinAnd(Units(e, u, names, inBlock))
    ensures Units(e, u, names, inBlock) == Pairs(e.cop, AllTokens(e.args, u, names, inBlock))
    ensures Spine(e, u, names, inBlock) == PairTrees(e.cop, Spines(e.args, u, names, inBlock))
  {
    hide JoinAnd, Pairs, PairTrees, AllTokens, Spines;
  }

  // One comparison of a call, in its parentheses.
  lemma PairReads(op: BinaryOp, l: Expr, r: Expr, u: Unit, names: Naming, inBlock: bool)
    requires HasArity(l) && HasArity(r) && UnitsRead(l, u, names, inBlock) && UnitsRead(r, u, names, inBlock)
    ensures IsUnary([LeftPar] + (Tokens(l, u, names, inBlock) + [Operator(op)] + Tokens(r, u, names, inBlock))
        + [RightPar],
                    Grouped(Arithmetic(op), Spine(l, u, names, inBlock), Spine(r, u, names, inBlock)))
  {
    hide IsUnary, IsExpr, Tokens, Units, Spine, JoinAnd, Grouped;
    var a, b := Spine(l, u, names, inBlock), Spine(r, u, names, inBlock);
    GroupedIsExpr(Units(l, u, names, inBlock), a, Arithmetic(op), Units(r, u, names, inBlock), b);
    ParenthesesAreUnary(Tokens(l, u, names, inBlock) + [Operator(op)] + Tokens(r, u, names, inBlock),
                        Grouped(Arithmetic(op), a, b));
  }

  lemma CallUnit(e: Expr, k: nat, u: Unit, names: Naming, inBlock: bool)
    requires HasArity(e) && e.Call? && k < |Units(e, u, names, inBlock)|
    ensures |Units(e, u, names, inBlock)| == |e.args| - 1 == |Spine(e, u, names, inBlock)|
    ensures Units(e, u, names, inBlock)[k]
            == [LeftPar] + (Tokens(e.args[k], u, names, inBlock) + [Operator(e.cop)]
                            + Tokens(e.args[k + 1], u, names, inBlock)) + [RightPar]
    ensures Spine(e, u, names, inBlock)[k]
            == Grouped(Arithmetic(e.cop), Spine(e.args[k], u, names, inBlock), Spine(e.args[k + 1], u, names, inBlock))
  {
    CallParts(e, u, names, inBlock);
    hide Tokens, Units, Spine, Grouped;
  }

  lemma CallUnitReads(e: Expr, k: nat, u: Unit, names: Naming, inBlock: bool)
    requires HasArity(e) && e.Call? && forall a <- e.args :: UnitsRead(a, u, names, inBlock)
    requires k < |Units(e, u, names, inBlock)|
    ensures |Units(e, u, names, inBlock)| == |Spine(e, u, names, inBlock)|
    ensures IsUnary(Units(e, u, names, inBlock)[k], Spine(e, u, names, inBlock)[k])
  {
    hide IsUnary, Tokens, Units, Spine, JoinAnd, Grouped, UnitsRead;
    CallUnit(e, k, u, names, inBlock);
    assert e.args[k] in e.args && e.args[k + 1] in e.args;
    PairReads(e.cop, e.args[k], e.args[k + 1], u, names, inBlock);
  }

  lemma CallReads(e: Expr, u: Unit, names: Naming, inBlock: bool)
    requires HasArity(e) && e.Call? && forall a <- e.args :: UnitsRead(a, u, names, inBlock)
    ensures UnitsRead(e, u, names, inBlock)
  {
    CallParts(e, u, names, inBlock);
    hide IsUnary, Tokens, Units, Spine, JoinAnd, Grouped, UnitsRead, HasArity;
    var us, es := Units(e, u, names, inBlock), Spine(e, u, names, inBlock);
    forall k | 0 <= k < |us| ensures IsUnary(us[k], es[k]) { CallUnitReads(e, k, u, names, inBlock); }
    assert AllUnary(us, es);
    UnitsReadBy(e, u, names, inBlock);
  }

  lemma UnitsReadBy(e: Expr, u: Unit, names: Naming, inBlock: bool)
    requires HasArity(e) && Tokens(e, u, names, inBlock) == JoinAnd(Units(e, u, names, inBlock))
    requires AllUnary(Units(e, u, names, inBlock), Spine(e, u, names, inBlock))
    ensures UnitsRead(e, u, names, inBlock)
  {
  }

  // The index test of a MUX, in parentheses of its own.
  lemma MuxTestReads(index: seq<Token>, k: CExpr, position: nat)
    requires IsExpr(index, k)
    ensures IsConjunction(MuxTest(index, position), CBin(Arithmetic(Eq), k, CInt(position)))
  {
    hide IsExpr;
    ParenthesesAreUnary(index, k);
    assert IsUnary([Number(position)], CInt(position)) by {
      forall rest: seq<Token> ensures ParseUnary([Number(position)] + rest) == Some(Parsed(CInt(position), rest)) {
        assert ([Number(position)] + rest)[1..] == rest;
      }
    }
    hide IsUnary, IsTight, IsConjunction;
    PairIsTight([LeftPar] + index + [RightPar], k, Eq, [Number(position)], CInt(position));
    JoinedAnd([MuxTest(index, position)], [CBin(Arithmetic(Eq), k, CInt(position))]);
  }

  lemma {:induction false} MuxReads(index: seq<Token>, k: CExpr, texts: seq<seq<Token>>, es: seq<CExpr>, position: nat)
    requires position < |texts| == |es| && IsExpr(index, k) && forall i :: 0 <= i < |texts| ==> IsExpr(texts[i], es[i])
    ensures IsExpr(MuxTokens(index, texts, position), MuxExpr(k, es, position))
    ensures position < |texts| - 1 ==> IsUnary(MuxTokens(index, texts, position), MuxExpr(k, es, position))
    decreases |texts| - position
  {
    hide IsExpr, IsUnary, IsConjunction;
    if position < |texts| - 1 {
      MuxReads(index, k, texts, es, position + 1);
      MuxTestReads(index, k, position);
      var rest, tail := MuxTokens(index, texts, position + 1), MuxExpr(k, es, position + 1);
      ConditionalIsExpr(MuxTest(index, position), CBin(Arithmetic(Eq), k, CInt(position)), texts[position],
          es[position], rest, tail);
      var body := MuxTest(index, position) + [Question] + texts[position] + [Colon] + rest;
      ParenthesesAreUnary(body, MuxExpr(k, es, position));
      UnaryIsExpr([LeftPar] + body + [RightPar], MuxExpr(k, es, position));
    }
  }

  lemma ChoiceReads(e: Expr, u: Unit, names: Naming, inBlock: bool)
    requires HasArity(e) && e.Mux? && (|e.inputs| > 1 ==> UnitsRead(e.index, u, names, inBlock))
    requires forall a <- e.inputs :: UnitsRead(a, u, names, inBlock)
    ensures UnitsRead(e, u, names, inBlock)
  {
    hide IsUnary, IsExpr, IsConjunction;
    if |e.inputs| == 1 {
      assert UnitsRead(e.inputs[0], u, names, inBlock);
    } else {
      ReadsExpr(e.index, u, names, inBlock);
      var texts, es := AllTokens(e.inputs, u, names, inBlock), FoldAll(Spines(e.inputs, u, names, inBlock));
      forall i | 0 <= i < |texts| ensures IsExpr(texts[i], es[i]) {
        assert UnitsRead(e.inputs[i], u, names, inBlock);
        ReadsExpr(e.inputs[i], u, names, inBlock);
      }
      MuxReads(Tokens(e.index, u, names, inBlock), Read(e.index, u, names, inBlock), texts, es, 0);
      SingleReads(e, u, names, inBlock);
    }
  }

  lemma {:induction false} FirstToken(e: Expr, u: Unit, names: Naming)
    requires HasArity(e) && !StartsWithMinus(e)
    ensures Tokens(e, u, names, true) != [] && Tokens(e, u, names, true)[0] != Operator(Sub)
  {
    match e
    case Call(op, args) =>
      var pairs := Pairs(op, AllTokens(args, u, names, true));
      assert pairs[0][0] == LeftPar;
      assert JoinAnd(pairs)[0] == pairs[0][0];
    case Mux(_, inputs) => if |inputs| == 1 { FirstToken(inputs[0], u, names); }
    case _ =>
  }

  lemma {:induction false} TextReads(e: Expr, u: Unit, names: Naming, inBlock: bool)
    requires HasArity(e) && !Glued(e, inBlock)
    ensures UnitsRead(e, u, names, inBlock)
    decreases e
  {
    hide UnitsRead, Tokens;
    match e
    case Unary(op, a) =>
      TextReads(a, u, names, inBlock);
      if op.Neg? {
        if inBlock {
          FirstToken(a, u, names);
          BlockNegationReads(e, u, names);
        } else {
          NegationReads(e, u, names);
        }
      } else {
        ComplementReads(e, u, names, inBlock);
      }
    case Binary(_, l, r) =>
      TextReads(l, u, names, inBlock);
      TextReads(r, u, names, inBlock);
      BinaryReads(e, u, names, inBlock);
    case Call(_, args) =>
      forall k | 0 <= k < |args| ensures UnitsRead(args[k], u, names, inBlock) {
        TextReads(args[k], u, names, inBlock);
      }
      CallReads(e, u, names, inBlock);
    case Mux(k, inputs) =>
      if |inputs| > 1 { TextReads(k, u, names, inBlock); }
      forall i | 0 <= i < |inputs| ensures UnitsRead(inputs[i], u, names, inBlock) {
        TextReads(inputs[i], u, names, inBlock);
      }
      ChoiceReads(e, u, names, inBlock);
    case _ => LeafReads(e, u, names, inBlock);
  }

  // Whatever the expression, C's parser takes its text whole and reads this tree.
  lemma TextIsRead(e: Expr, u: Unit, names: Naming, inBlock: bool)
    requires HasArity(e) && !Glued(e, inBlock)
    ensures ParseExpr(Tokens(e, u, names, inBlock)) == Some(Parsed(Read(e, u, names, inBlock), []))
  {
    hide Tokens, Read, UnitsRead, IsExpr, ParseExpr;
    TextReads(e, u, names, inBlock);
    ReadsExpr(e, u, names, inBlock);
    WholeText(Tokens(e, u, names, inBlock), Read(e, u, names, inBlock));
  }

  // ----- when it is the lowered tree -----

  lemma {:induction false} ChainsHaveSpines(e: Expr, u: Unit, names: Naming, inBlock: bool)
    requires HasArity(e)
    ensures Chains(e) <==> |Spine(e, u, names, inBlock)| > 1
  {
    if e.Mux? && |e.inputs| == 1 { ChainsHaveSpines(e.inputs[0], u, names, inBlock); }
  }

  function Size(c: CExpr): nat {
    match c
    case CUn(_, a) => 1 + Size(a)
    case CBin(_, l, r) => 1 + Size(l) + Size(r)
    case CCond(t, y, n) => 1 + Size(t) + Size(y) + Size(n)
    case _ => 1
  }

  function TotalSize(es: seq<CExpr>): nat {
    if es == [] then 0 else TotalSize(es[..|es| - 1]) + Size(es[|es| - 1])
  }

  lemma {:induction false} FoldSize(es: seq<CExpr>)
    requires es != []
    ensures Size(FoldAnd(es)) == TotalSize(es) + |es| - 1
  {
    if |es| == 1 {
      assert es[..0] == [];
    } else {
      FoldSize(es[..|es| - 1]);
    }
  }

  lemma {:induction false} TotalSizeAppend(a: seq<CExpr>, b: seq<CExpr>)
    ensures TotalSize(a + b) == TotalSize(a) + TotalSize(b)
    decreases |b|
  {
    if b == [] {
      assert a + b == a;
    } else {
      var n := |b| - 1;
      assert (a + b)[..|a| + n] == a + b[..n];
      TotalSizeAppend(a, b[..n]);
    }
  }

  lemma TotalSizeOne(c: CExpr)
    ensures TotalSize([c]) == Size(c)
  {
    assert [c][..0] == [];
  }

  // Regrouping keeps every node.
  lemma GroupedSize(op: CBinary, l: seq<CExpr>, r: seq<CExpr>)
    requires l != [] && r != []
    ensures Size(Grouped(op, l, r)) == 1 + Size(FoldAnd(l)) + Size(FoldAnd(r))
  {
    FoldSize(l);
    FoldSize(r);
    match op
    case OrOr =>
    case AndAnd =>
      FoldSize(l + r);
      TotalSizeAppend(l, r);
    case Arithmetic(o) =>
      var m := CBin(Arithmetic(o), l[|l| - 1], r[0]);
      var front := l[..|l| - 1];
      FoldSize(Fused(l, m, r));
      TotalSizeAppend(front + [m], r[1..]);
      TotalSizeAppend(front, [m]);
      TotalSizeOne(m);
      TotalSizeAppend([r[0]], r[1..]);
      TotalSizeOne(r[0]);
      assert [r[0]] + r[1..] == r;
  }

  // `compare_chain_to_c` is a conjunction of its pairs.
  function ChainPairs(op: BinaryOp, cs: seq<CExpr>): (ps: seq<CExpr>)
    requires |cs| >= 2
    ensures |ps| == |cs| - 1 && forall k :: 0 <= k < |ps| ==> ps[k] == CBin(Arithmetic(op), cs[k], cs[k + 1])
  {
    seq(|cs| - 1, k requires 0 <= k < |cs| - 1 => CBin(Arithmetic(op), cs[k], cs[k + 1]))
  }

  lemma ChainPairsFront(op: BinaryOp, cs: seq<CExpr>)
    requires |cs| > 2
    ensures ChainPairs(op, cs)[..|cs| - 2] == ChainPairs(op, cs[..|cs| - 1])
  {
  }

  lemma {:induction false} ChainIsFold(op: BinaryOp, cs: seq<CExpr>)
    requires |cs| >= 2
    ensures ChainExpr(op, cs) == FoldAnd(ChainPairs(op, cs))
    decreases |cs|
  {
    if |cs| > 2 {
      hide ChainPairs;
      var n := |cs| - 1;
      ChainIsFold(op, cs[..n]);
      ChainPairsFront(op, cs);
    }
  }

  lemma {:induction false} FoldDecides(a: seq<CExpr>, b: seq<CExpr>)
    requires |a| == |b| > 0
    ensures FoldAnd(a) == FoldAnd(b) <==> a == b
    decreases |a|
  {
    var n := |a| - 1;
    if n > 0 {
      FoldDecides(a[..n], b[..n]);
      assert a == a[..n] + [a[n]] && b == b[..n] + [b[n]];
    } else {
      assert a == [a[0]] && b == [b[0]];
    }
  }

  lemma {:induction false} MuxDecides(k: CExpr, a: seq<CExpr>, m: CExpr, b: seq<CExpr>, position: nat)
    requires position < |a| == |b|
    ensures MuxExpr(k, a, position) == MuxExpr(m, b, position)
            <==> (position < |a| - 1 ==> k == m) && forall i :: position <= i < |a| ==> a[i] == b[i]
    decreases |a| - position
  {
    if position < |a| - 1 { MuxDecides(k, a, m, b, position + 1); }
  }

  lemma AndDecides(l: seq<CExpr>, r: seq<CExpr>, a: CExpr, b: CExpr)
    requires l != [] && r != [] && Size(FoldAnd(r)) == Size(b)
    ensures FoldAnd(l + r) == CBin(AndAnd, a, b) <==> FoldAnd(l) == a && FoldAnd(r) == b && |r| == 1
  {
    var all, last := l + r, r[|r| - 1];
    assert all[|all| - 1] == last;
    if |r| == 1 {
      assert all[..|all| - 1] == l;
    } else {
      LastIsSmaller(r);
    }
  }

  lemma LastIsSmaller(r: seq<CExpr>)
    requires |r| > 1
    ensures Size(r[|r| - 1]) < Size(FoldAnd(r))
  {
  }

  lemma TightDecides(op: BinaryOp, l: seq<CExpr>, r: seq<CExpr>, a: CExpr, b: CExpr)
    requires l != [] && r != []
    ensures Grouped(Arithmetic(op), l, r) == CBin(Arithmetic(op), a, b)
            <==> FoldAnd(l) == a && FoldAnd(r) == b && |r| == 1 && |l| == 1
  {
    var m := CBin(Arithmetic(op), l[|l| - 1], r[0]);
    if |l| == 1 && |r| == 1 {
      assert Fused(l, m, r) == [m];
    }
  }

  // Two operands and the tree they are meant to make.
  lemma GroupedDecides(op: CBinary, l: seq<CExpr>, r: seq<CExpr>, a: CExpr, b: CExpr)
    requires l != [] && r != [] && Size(FoldAnd(r)) == Size(b)
    ensures Grouped(op, l, r) == CBin(op, a, b)
            <==> FoldAnd(l) == a && FoldAnd(r) == b && (op.OrOr? || |r| == 1) && (op.Arithmetic? ==> |l| == 1)
  {
    hide FoldAnd, Size;
    match op
    case OrOr =>
    case AndAnd => AndDecides(l, r, a, b);
    case Arithmetic(o) => TightDecides(o, l, r, a, b);
  }

  ghost predicate Settled(e: Expr, u: Unit, names: Naming, inBlock: bool)
    requires HasArity(e)
  {
    && Size(Read(e, u, names, inBlock)) == Size(LowerExpr(e, u, names))
    && (Read(e, u, names, inBlock) == LowerExpr(e, u, names) <==> OperandsOk(e, u, inBlock))
    && (Chains(e) <==> |Spine(e, u, names, inBlock)| > 1)
  }

  lemma MinusedSize(s: seq<CExpr>)
    requires s != []
    ensures Size(FoldAnd([CUn(Minus, s[0])] + s[1..])) == 1 + Size(FoldAnd(s))
  {
    var t := [CUn(Minus, s[0])] + s[1..];
    FoldSize(s);
    FoldSize(t);
    TotalSizeAppend([CUn(Minus, s[0])], s[1..]);
    TotalSizeAppend([s[0]], s[1..]);
    TotalSizeOne(s[0]);
    TotalSizeOne(CUn(Minus, s[0]));
    assert [s[0]] + s[1..] == s;
  }

  lemma MinusedDecides(s: seq<CExpr>, a: CExpr)
    requires s != []
    ensures FoldAnd([CUn(Minus, s[0])] + s[1..]) == CUn(Minus, a) <==> |s| == 1 && FoldAnd(s) == a
  {
  }

  lemma UnaryShape(e: Expr, u: Unit, names: Naming, inBlock: bool)
    requires HasArity(e) && e.Unary?
    ensures var s := Spine(e.expr, u, names, inBlock);
      && Read(e, u, names, inBlock)
         == (if e.uop.Not? then CUn(if IsBoolForC(e.expr, u) then Bang else Tilde, FoldAnd(s))
             else if inBlock then FoldAnd([CUn(Minus, s[0])] + s[1..]) else CUn(Minus, FoldAnd(s)))
      && LowerExpr(e, u, names)
         == CUn(if e.uop.Neg? then Minus else if IsBoolForC(e.expr, u) then Bang else Tilde,
                LowerExpr(e.expr, u, names))
  {
  }

  lemma UnarySettled(e: Expr, u: Unit, names: Naming, inBlock: bool)
    requires HasArity(e) && e.Unary? && Settled(e.expr, u, names, inBlock)
    ensures Settled(e, u, names, inBlock)
  {
    hide FoldAnd, Spine, LowerExpr, IsBoolForC, Chains;
    var s := Spine(e.expr, u, names, inBlock);
    ChainsHaveSpines(e, u, names, inBlock);
    UnaryShape(e, u, names, inBlock);
    MinusedSize(s);
    MinusedDecides(s, LowerExpr(e.expr, u, names));
  }

  lemma BinaryShape(e: Expr, u: Unit, names: Naming, inBlock: bool)
    requires HasArity(e) && e.Binary?
    ensures var o := OperatorFor(e.op, IsBoolForC(e.left, u) && IsBoolForC(e.right, u));
      && Read(e, u, names, inBlock) == Grouped(o, Spine(e.left, u, names, inBlock), Spine(e.right, u, names, inBlock))
      && LowerExpr(e, u, names) == CBin(o, LowerExpr(e.left, u, names), LowerExpr(e.right, u, names))
  {
    hide Grouped, IsBoolForC, OperatorFor;
  }

  lemma BinarySizes(e: Expr, u: Unit, names: Naming, inBlock: bool)
    requires HasArity(e) && e.Binary?
    requires Size(Read(e.left, u, names, inBlock)) == Size(LowerExpr(e.left, u, names))
    requires Size(Read(e.right, u, names, inBlock)) == Size(LowerExpr(e.right, u, names))
    ensures Size(Read(e, u, names, inBlock)) == Size(LowerExpr(e, u, names))
  {
    hide Grouped, FoldAnd, Spine, LowerExpr, IsBoolForC, OperatorFor;
    BinaryShape(e, u, names, inBlock);
    var o := OperatorFor(e.op, IsBoolForC(e.left, u) && IsBoolForC(e.right, u));
    GroupedSize(o, Spine(e.left, u, names, inBlock), Spine(e.right, u, names, inBlock));
  }

  lemma BinaryAgrees(e: Expr, u: Unit, names: Naming, inBlock: bool)
    requires HasArity(e) && e.Binary? && Settled(e.left, u, names, inBlock) && Settled(e.right, u, names, inBlock)
    ensures Read(e, u, names, inBlock) == LowerExpr(e, u, names) <==> OperandsOk(e, u, inBlock)
  {
    hide Grouped, FoldAnd, Spine, LowerExpr, IsBoolForC, OperatorFor, OperandsOk, Chains, Size;
    var o := OperatorFor(e.op, IsBoolForC(e.left, u) && IsBoolForC(e.right, u));
    BinaryShape(e, u, names, inBlock);
    BinaryOperands(e, o, u, inBlock);
    GroupedDecides(o, Spine(e.left, u, names, inBlock), Spine(e.right, u, names, inBlock),
                   LowerExpr(e.left, u, names), LowerExpr(e.right, u, names));
  }

  lemma BinarySettled(e: Expr, u: Unit, names: Naming, inBlock: bool)
    requires HasArity(e) && e.Binary? && Settled(e.left, u, names, inBlock) && Settled(e.right, u, names, inBlock)
    ensures Settled(e, u, names, inBlock)
  {
    hide FoldAnd, Spine, LowerExpr, OperandsOk, Chains, Size, Read;
    BinarySizes(e, u, names, inBlock);
    BinaryAgrees(e, u, names, inBlock);
    ChainsHaveSpines(e, u, names, inBlock);
  }

  lemma BinaryOperands(e: Expr, o: CBinary, u: Unit, inBlock: bool)
    requires e.Binary? && o == OperatorFor(e.op, IsBoolForC(e.left, u) && IsBoolForC(e.right, u))
    ensures OperandsOk(e, u, inBlock)
            <==> OperandsOk(e.left, u, inBlock) && OperandsOk(e.right, u, inBlock)
                 && (o.OrOr? || !Chains(e.right)) && (o.Arithmetic? ==> !Chains(e.left))
  {
  }

  lemma CallShape(e: Expr, u: Unit, names: Naming, inBlock: bool)
    requires HasArity(e) && e.Call?
    ensures Read(e, u, names, inBlock) == FoldAnd(PairTrees(e.cop, Spines(e.args, u, names, inBlock)))
    ensures LowerExpr(e, u, names) == FoldAnd(ChainPairs(e.cop, LowerAll(e.args, u, names)))
  {
    hide FoldAnd, PairTrees, ChainPairs, Spines, LowerAll, ChainExpr;
    ChainIsFold(e.cop, LowerAll(e.args, u, names));
  }

  lemma CallSettled(e: Expr, u: Unit, names: Naming, inBlock: bool)
    requires HasArity(e) && e.Call? && forall a <- e.args :: Settled(a, u, names, inBlock)
    ensures Settled(e, u, names, inBlock)
  {
    hide Grouped, Size, FoldAnd, Settled, TotalSize, Spine, LowerExpr, OperandsOk, Chains, PairOk, PairTrees,
         ChainPairs;
    var ss, cs := Spines(e.args, u, names, inBlock), LowerAll(e.args, u, names);
    var ps, qs := PairTrees(e.cop, ss), ChainPairs(e.cop, cs);
    CallShape(e, u, names, inBlock);
    forall k | 0 <= k < |ps|
      ensures Size(ps[k]) == Size(qs[k])
      ensures ps[k] == qs[k] <==> PairOk(e.args[k], e.args[k + 1], u, inBlock)
    {
      assert Settled(e.args[k], u, names, inBlock) && Settled(e.args[k + 1], u, names, inBlock);
      PairSettled(e.cop, e.args[k], e.args[k + 1], u, names, inBlock);
    }
    FoldDecides(ps, qs);
    SameTotal(ps, qs);
    FoldSize(ps);
    FoldSize(qs);
    CallOperands(e, u, inBlock);
    ChainsHaveSpines(e, u, names, inBlock);
    CallSettles(e, u, names, inBlock, ps, qs);
  }

  lemma CallOperands(e: Expr, u: Unit, inBlock: bool)
    requires e.Call? && |e.args| >= 2
    ensures OperandsOk(e, u, inBlock)
        <==> forall k :: 0 <= k < |e.args| - 1 ==> PairOk(e.args[k], e.args[k + 1], u, inBlock)
  {
    PairsCover(e.args, u, inBlock);
    hide PairOk, Chains;
  }

  predicate PairOk(a: Expr, b: Expr, u: Unit, inBlock: bool) {
    OperandsOk(a, u, inBlock) && !Chains(a) && OperandsOk(b, u, inBlock) && !Chains(b)
  }

  lemma PairSettled(op: BinaryOp, a: Expr, b: Expr, u: Unit, names: Naming, inBlock: bool)
    requires HasArity(a) && HasArity(b) && Settled(a, u, names, inBlock) && Settled(b, u, names, inBlock)
    ensures var p := Grouped(Arithmetic(op), Spine(a, u, names, inBlock), Spine(b, u, names, inBlock));
      var q := CBin(Arithmetic(op), LowerExpr(a, u, names), LowerExpr(b, u, names));
      Size(p) == Size(q) && (p == q <==> PairOk(a, b, u, inBlock))
  {
    hide Grouped, FoldAnd, Spine, LowerExpr, OperandsOk, Chains;
    var l, r := Spine(a, u, names, inBlock), Spine(b, u, names, inBlock);
    GroupedSize(Arithmetic(op), l, r);
    GroupedDecides(Arithmetic(op), l, r, LowerExpr(a, u, names), LowerExpr(b, u, names));
  }

  lemma {:induction false} SameTotal(a: seq<CExpr>, b: seq<CExpr>)
    requires |a| == |b| && forall k :: 0 <= k < |a| ==> Size(a[k]) == Size(b[k])
    ensures TotalSize(a) == TotalSize(b)
    decreases |a|
  {
    if a == [] {
    } else {
      SameTotal(a[..|a| - 1], b[..|b| - 1]);
    }
  }

  // Every argument is in a pair.
  lemma PairsCover(args: seq<Expr>, u: Unit, inBlock: bool)
    requires |args| >= 2
    ensures (forall k :: 0 <= k < |args| ==> OperandsOk(args[k], u, inBlock) && !Chains(args[k]))
            <==> forall k :: 0 <= k < |args| - 1 ==> PairOk(args[k], args[k + 1], u, inBlock)
  {
    hide PairOk, OperandsOk, Chains;
    if forall k :: 0 <= k < |args| ==> OperandsOk(args[k], u, inBlock) && !Chains(args[k]) {
      forall k | 0 <= k < |args| - 1 ensures PairOk(args[k], args[k + 1], u, inBlock) {
        PairOf(args[k], args[k + 1], u, inBlock);
      }
    }
    if forall k :: 0 <= k < |args| - 1 ==> PairOk(args[k], args[k + 1], u, inBlock) {
      forall i | 0 <= i < |args| ensures OperandsOk(args[i], u, inBlock) && !Chains(args[i]) {
        var k := if i == 0 then 0 else i - 1;
        assert PairOk(args[k], args[k + 1], u, inBlock);
        PairOf(args[k], args[k + 1], u, inBlock);
      }
    }
  }

  lemma PairOf(a: Expr, b: Expr, u: Unit, inBlock: bool)
    ensures PairOk(a, b, u, inBlock)
        <==> OperandsOk(a, u, inBlock) && !Chains(a) && OperandsOk(b, u, inBlock) && !Chains(b)
  {
  }

  lemma CallSettles(e: Expr, u: Unit, names: Naming, inBlock: bool, ps: seq<CExpr>, qs: seq<CExpr>)
    requires HasArity(e) && e.Call?
    requires |ps| == |qs| == |e.args| - 1
    requires Read(e, u, names, inBlock) == FoldAnd(ps) && LowerExpr(e, u, names) == FoldAnd(qs)
    requires Size(FoldAnd(ps)) == Size(FoldAnd(qs)) && (FoldAnd(ps) == FoldAnd(qs) <==> ps == qs)
    requires forall k :: 0 <= k < |ps| ==> (ps[k] == qs[k] <==> PairOk(e.args[k], e.args[k + 1], u, inBlock))
    requires OperandsOk(e, u, inBlock)
             <==> forall k :: 0 <= k < |e.args| - 1 ==> PairOk(e.args[k], e.args[k + 1], u, inBlock)
    requires Chains(e) <==> |Spine(e, u, names, inBlock)| > 1
    ensures Settled(e, u, names, inBlock)
  {
    hide Size, FoldAnd, Spine, LowerExpr, Chains, PairOk, OperandsOk;
    if OperandsOk(e, u, inBlock) {
      forall k | 0 <= k < |ps| ensures ps[k] == qs[k] { assert PairOk(e.args[k], e.args[k + 1], u, inBlock); }
    }
    if ps == qs {
      forall k | 0 <= k < |e.args| - 1 ensures PairOk(e.args[k], e.args[k + 1], u, inBlock) { assert ps[k] == qs[k]; }
    }
  }

  lemma {:induction false} MuxSize(k: CExpr, a: seq<CExpr>, m: CExpr, b: seq<CExpr>, position: nat)
    requires position < |a| == |b| && Size(k) == Size(m) && forall i :: 0 <= i < |a| ==> Size(a[i]) == Size(b[i])
    ensures Size(MuxExpr(k, a, position)) == Size(MuxExpr(m, b, position))
    decreases |a| - position
  {
    if position < |a| - 1 { MuxSize(k, a, m, b, position + 1); }
  }

  lemma ChoiceSettled(e: Expr, u: Unit, names: Naming, inBlock: bool)
    requires HasArity(e) && e.Mux? && Settled(e.index, u, names, inBlock)
        && forall a <- e.inputs :: Settled(a, u, names, inBlock)
    ensures Settled(e, u, names, inBlock)
  {
    hide Size, FoldAnd, Spine, LowerExpr, Chains, MuxExpr, OperandsOk;
    ChainsHaveSpines(e, u, names, inBlock);
    SpineOfMux(e, u, names, inBlock);
    ChoiceOperands(e, u, inBlock);
    var es, cs := FoldAll(Spines(e.inputs, u, names, inBlock)), LowerAll(e.inputs, u, names);
    forall i | 0 <= i < |es|
      ensures Size(es[i]) == Size(cs[i]) && (es[i] == cs[i] <==> OperandsOk(e.inputs[i], u, inBlock))
    {
      assert Settled(e.inputs[i], u, names, inBlock);
    }
    MuxDecides(Read(e.index, u, names, inBlock), es, LowerExpr(e.index, u, names), cs, 0);
    MuxSize(Read(e.index, u, names, inBlock), es, LowerExpr(e.index, u, names), cs, 0);
  }

  lemma ChoiceOperands(e: Expr, u: Unit, inBlock: bool)
    requires e.Mux?
    ensures OperandsOk(e, u, inBlock)
            <==> (|e.inputs| > 1 ==> OperandsOk(e.index, u, inBlock))
                 && forall k :: 0 <= k < |e.inputs| ==> OperandsOk(e.inputs[k], u, inBlock)
  {
  }

  lemma SpineOfMux(e: Expr, u: Unit, names: Naming, inBlock: bool)
    requires HasArity(e) && e.Mux?
    ensures Read(e, u, names, inBlock)
        == MuxExpr(Read(e.index, u, names, inBlock), FoldAll(Spines(e.inputs, u, names, inBlock)), 0)
    ensures LowerExpr(e, u, names) == MuxExpr(LowerExpr(e.index, u, names), LowerAll(e.inputs, u, names), 0)
  {
  }

  lemma {:induction false} TreeSettled(e: Expr, u: Unit, names: Naming, inBlock: bool)
    requires HasArity(e)
    ensures Settled(e, u, names, inBlock)
  {
    hide Settled;
    match e
    case Unary(_, a) =>
      TreeSettled(a, u, names, inBlock);
      UnarySettled(e, u, names, inBlock);
    case Binary(_, l, r) =>
      TreeSettled(l, u, names, inBlock);
      TreeSettled(r, u, names, inBlock);
      BinarySettled(e, u, names, inBlock);
    case Call(_, args) =>
      forall k | 0 <= k < |args| ensures Settled(args[k], u, names, inBlock) {
        TreeSettled(args[k], u, names, inBlock);
      }
      CallSettled(e, u, names, inBlock);
    case Mux(k, inputs) =>
      TreeSettled(k, u, names, inBlock);
      forall i | 0 <= i < |inputs| ensures Settled(inputs[i], u, names, inBlock) {
        TreeSettled(inputs[i], u, names, inBlock);
      }
      ChoiceSettled(e, u, names, inBlock);
    case _ => LeafSettled(e, u, names, inBlock);
  }

  lemma LeafSettled(e: Expr, u: Unit, names: Naming, inBlock: bool)
    requires e.Literal? || e.BoolLiteral? || e.Variable?
    ensures Settled(e, u, names, inBlock)
  {
  }

  // ----- the printing theorem -----

  lemma {:induction false} JoinAndHas(units: seq<seq<Token>>, k: nat, t: Token)
    requires k < |units| && t in units[k]
    ensures t in JoinAnd(units)
    decreases |units|
  {
    if k == 0 {
    } else {
      JoinAndHas(units[1..], k - 1, t);
    }
  }

  lemma {:induction false} MuxHas(index: seq<Token>, inputs: seq<seq<Token>>, position: nat, t: Token)
    requires position < |inputs|
    ensures (exists i :: position <= i < |inputs| && t in inputs[i]) ==> t in MuxTokens(index, inputs, position)
    ensures position < |inputs| - 1 && t in index ==> t in MuxTokens(index, inputs, position)
    decreases |inputs| - position
  {
    if position < |inputs| - 1 {
      MuxHas(index, inputs, position + 1, t);
      if t in index { assert t in MuxTest(index, position); }
    }
  }

  lemma {:induction false} MinusFirst(e: Expr, u: Unit, names: Naming)
    requires HasArity(e) && StartsWithMinus(e)
    ensures Tokens(e, u, names, true) != [] && Tokens(e, u, names, true)[0] == Operator(Sub)
  {
    if e.Mux? { MinusFirst(e.inputs[0], u, names); }
  }

  lemma {:induction false} GluedShows(e: Expr, u: Unit, names: Naming, inBlock: bool)
    requires HasArity(e) && Glued(e, inBlock)
    ensures MinusMinus in Tokens(e, u, names, inBlock)
    decreases e
  {
    match e
    case Unary(op, a) =>
      if inBlock && op.Neg? && StartsWithMinus(a) {
        MinusFirst(a, u, names);
      } else {
        GluedShows(a, u, names, inBlock);
        GluedUnder(e, u, names, inBlock);
      }
    case Binary(_, l, r) =>
      if Glued(l, inBlock) { GluedShows(l, u, names, inBlock); } else { GluedShows(r, u, names, inBlock); }
    case Call(_, args) =>
      var k :| 0 <= k < |args| && Glued(args[k], inBlock);
      GluedShows(args[k], u, names, inBlock);
      GluedArgument(e, k, u, names, inBlock);
    case Mux(k, inputs) =>
      hide Tokens;
      if |inputs| > 1 && Glued(k, inBlock) {
        GluedShows(k, u, names, inBlock);
        GluedChoice(e, 0, u, names, inBlock);
      } else {
        var i :| 0 <= i < |inputs| && Glued(inputs[i], inBlock);
        GluedShows(inputs[i], u, names, inBlock);
        GluedChoice(e, i, u, names, inBlock);
      }
  }

  lemma GluedUnder(e: Expr, u: Unit, names: Naming, inBlock: bool)
    requires e.Unary? && MinusMinus in Tokens(e.expr, u, names, inBlock)
    ensures MinusMinus in Tokens(e, u, names, inBlock)
  {
    var t := Tokens(e.expr, u, names, inBlock);
    assert MinusMinus in Minused(t) by { assert t[1..] <= t[1..]; }
  }

  lemma GluedArgument(e: Expr, k: nat, u: Unit, names: Naming, inBlock: bool)
    requires e.Call? && |e.args| >= 2 && k < |e.args| && MinusMinus in Tokens(e.args[k], u, names, inBlock)
    ensures MinusMinus in Tokens(e, u, names, inBlock)
  {
    var pairs := Pairs(e.cop, AllTokens(e.args, u, names, inBlock));
    var j := if k == 0 then 0 else k - 1;
    assert MinusMinus in pairs[j];
    JoinAndHas(pairs, j, MinusMinus);
  }

  lemma GluedChoice(e: Expr, i: nat, u: Unit, names: Naming, inBlock: bool)
    requires e.Mux? && i < |e.inputs|
    requires MinusMinus in Tokens(e.inputs[i], u, names, inBlock)
             || (|e.inputs| > 1 && MinusMinus in Tokens(e.index, u, names, inBlock))
    ensures MinusMinus in Tokens(e, u, names, inBlock)
  {
    var texts := AllTokens(e.inputs, u, names, inBlock);
    MuxHas(Tokens(e.index, u, names, inBlock), texts, 0, MinusMinus);
    assert texts[i] == Tokens(e.inputs[i], u, names, inBlock);
  }

  // The text of an expression parses to its lowered tree exactly when no chain
  // of comparisons is regrouped and no two minus signs meet.
  lemma TextIsTree(e: Expr, u: Unit, names: Naming, inBlock: bool)
    requires HasArity(e)
    ensures ParseExpr(Tokens(e, u, names, inBlock)) == Some(Parsed(LowerExpr(e, u, names), []))
            <==> OperandsOk(e, u, inBlock) && !Glued(e, inBlock)
  {
    hide ParseExpr, Tokens, LowerExpr, OperandsOk, Glued, Read, Size, Chains;
    if Glued(e, inBlock) {
      GluedShows(e, u, names, inBlock);
      MinusMinusFails(Tokens(e, u, names, inBlock));
    } else {
      TextIsRead(e, u, names, inBlock);
      TreeSettled(e, u, names, inBlock);
    }
  }

  // GT(a, b, c) = d reads as (a > b) && ((b > c) == d).
  lemma ChainOperandMisread(u: Unit, names: Naming, a: Path, b: Path, c: Path, d: Path)
    ensures var e := Binary(Eq, Call(Gt, [Variable(a), Variable(b), Variable(c)]), Variable(d));
      !OperandsOk(e, u, false) && HasArity(e)
      && ParseExpr(Tokens(e, u, names, false))
         == Some(Parsed(CBin(AndAnd, CBin(Arithmetic(Gt), CField(names(a)), CField(names(b))),
                             CBin(Arithmetic(Eq), CBin(Arithmetic(Gt), CField(names(b)), CField(names(c))),
                                 CField(names(d)))), []))
  {
    var call, w := Call(Gt, [Variable(a), Variable(b), Variable(c)]), Variable(d);
    var e := Binary(Eq, call, w);
    ThreeFields(u, names, a, b, c);
    FieldSpine(d, u, names);
    var p, q := CBin(Arithmetic(Gt), CField(names(a)), CField(names(b))),
        CBin(Arithmetic(Gt), CField(names(b)), CField(names(c)));
    GroupedThree(Eq, p, q, CField(names(d)));
    hide ParseExpr, Tokens, Spine, FoldAnd, Grouped, Glued;
    BinaryShape(e, u, names, false);
    NeverGlued(e);
    TextIsRead(e, u, names, false);
  }

  lemma FieldSpine(p: Path, u: Unit, names: Naming)
    ensures Spine(Variable(p), u, names, false) == [CField(names(p))]
  {
  }

  lemma GroupedThree(op: BinaryOp, p: CExpr, q: CExpr, r: CExpr)
    ensures Grouped(Arithmetic(op), [p, q], [r]) == CBin(AndAnd, p, CBin(Arithmetic(op), q, r))
  {
    var m := CBin(Arithmetic(op), q, r);
    assert Fused([p, q], m, [r]) == [p, m];
    assert [p, m][..1] == [p];
    assert FoldAnd([p]) == p;
    assert FoldAnd([p, m]) == CBin(AndAnd, p, m);
  }

  lemma ThreeFields(u: Unit, names: Naming, a: Path, b: Path, c: Path)
    ensures HasArity(Call(Gt, [Variable(a), Variable(b), Variable(c)]))
    ensures Spine(Call(Gt, [Variable(a), Variable(b), Variable(c)]), u, names, false)
            == [CBin(Arithmetic(Gt), CField(names(a)), CField(names(b))),
                CBin(Arithmetic(Gt), CField(names(b)), CField(names(c)))]
  {
    var args := [Variable(a), Variable(b), Variable(c)];
    var ss := Spines(args, u, names, false);
    assert ss[0] == [CField(names(a))] && ss[1] == [CField(names(b))] && ss[2] == [CField(names(c))];
    PairOfFields(Gt, names(a), names(b));
    PairOfFields(Gt, names(b), names(c));
    var pairs := PairTrees(Gt, ss);
    assert pairs == [pairs[0], pairs[1]];
  }

  lemma PairOfFields(op: BinaryOp, a: string, b: string)
    ensures Grouped(Arithmetic(op), [CField(a)], [CField(b)]) == CBin(Arithmetic(op), CField(a), CField(b))
  {
    var m := CBin(Arithmetic(op), CField(a), CField(b));
    assert Fused([CField(a)], m, [CField(b)]) == [m];
  }

  // ----- CASE conditions -----

  // An operand that needs no parentheses around it.
  predicate Operand(e: Expr, u: Unit, inBlock: bool) {
    HasArity(e) && OperandsOk(e, u, inBlock) && !Chains(e) && !Glued(e, inBlock)
  }

  predicate LabelOk(l: CaseLabel, u: Unit, inBlock: bool) {
    match l
    case Single(e) => Operand(e, u, inBlock)
    case Range(low, high) => Operand(low, u, inBlock) && Operand(high, u, inBlock)
  }

  // `case_label_to_c`: only ranges get parentheses, and `&&` binds tighter than
  // the `||` that joins the labels; and `user_fb_case_label_to_c` in a block,
  // where every label has parentheses around it.
  function LabelTokens(l: CaseLabel, selector: seq<Token>, u: Unit, names: Naming, inBlock: bool): seq<Token> {
    match l
    case Single(e) =>
      var test := selector + [Operator(Eq)] + Tokens(e, u, names, inBlock);
      if inBlock then [LeftPar] + test + [RightPar] else test
    case Range(low, high) =>
      var a := selector + [Operator(Ge)] + Tokens(low, u, names, inBlock);
      var b := selector + [Operator(Le)] + Tokens(high, u, names, inBlock);
      if inBlock then [LeftPar] + (a + [AndAndT] + b) + [RightPar]
      else ([LeftPar] + a + [RightPar]) + [AndAndT] + ([LeftPar] + b + [RightPar])
  }

  function LabelsTokens(labels: seq<CaseLabel>, selector: seq<Token>, u: Unit, names: Naming,
      inBlock: bool): (ts: seq<seq<Token>>)
    ensures |ts| == |labels|
    ensures forall k :: 0 <= k < |labels| ==> ts[k] == LabelTokens(labels[k], selector, u, names, inBlock)
  {
    seq(|labels|, k requires 0 <= k < |labels| => LabelTokens(labels[k], selector, u, names, inBlock))
  }

  lemma {:induction false} NumberIsNoChain(e: Expr, u: Unit)
    requires TypeOf(e, u) == Some(TInt)
    ensures !Chains(e)
  {
    if e.Mux? && |e.inputs| == 1 { NumberIsNoChain(e.inputs[0], u); }
  }

  lemma OperandIsUnary(e: Expr, u: Unit, names: Naming, inBlock: bool)
    requires Operand(e, u, inBlock)
    ensures IsUnary(Tokens(e, u, names, inBlock), LowerExpr(e, u, names))
  {
    hide IsUnary, Tokens, LowerExpr, OperandsOk, Glued, Size, Chains, Units, Spine;
    TextReads(e, u, names, inBlock);
    TreeSettled(e, u, names, inBlock);
  }

  lemma ComparisonIsTight(l: seq<Token>, a: CExpr, op: BinaryOp, e: Expr, u: Unit, names: Naming, inBlock: bool)
    requires IsUnary(l, a) && Operand(e, u, inBlock)
    ensures IsTight(l + [Operator(op)] + Tokens(e, u, names, inBlock), CBin(Arithmetic(op), a, LowerExpr(e, u, names)))
  {
    hide IsUnary, IsTight, Tokens, LowerExpr, OperandsOk, Chains, Glued;
    OperandIsUnary(e, u, names, inBlock);
    PairIsTight(l, a, op, Tokens(e, u, names, inBlock), LowerExpr(e, u, names));
  }

  lemma TightIsConjunction(t: seq<Token>, c: CExpr)
    requires IsTight(t, c)
    ensures IsConjunction(t, c)
  {
    hide IsTight, IsConjunction;
    JoinedAnd([t], [c]);
  }

  // Two tests joined by `&&`.
  lemma BothAreConjunction(a: seq<Token>, x: CExpr, b: seq<Token>, y: CExpr)
    requires IsTight(a, x) && IsTight(b, y)
    ensures IsConjunction(a + [AndAndT] + b, CBin(AndAnd, x, y))
  {
    hide IsTight, IsConjunction;
    JoinedAnd([a, b], [x, y]);
    assert [a, b][1..] == [b] && [x, y][..1] == [x];
  }

  // Parentheses around a conjunction.
  lemma Parenthesised(t: seq<Token>, c: CExpr)
    requires IsConjunction(t, c)
    ensures IsTight([LeftPar] + t + [RightPar], c) && IsConjunction([LeftPar] + t + [RightPar], c)
  {
    hide IsTight, IsUnary, IsConjunction, IsExpr;
    ConjunctionIsExpr(t, c);
    ParenthesesAreUnary(t, c);
    UnaryIsTight([LeftPar] + t + [RightPar], c);
    TightIsConjunction([LeftPar] + t + [RightPar], c);
  }

  lemma LabelReads(l: CaseLabel, selector: seq<Token>, c: CExpr, u: Unit, names: Naming, inBlock: bool)
    requires LabelOk(l, u, inBlock) && IsUnary(selector, c)
    ensures IsConjunction(LabelTokens(l, selector, u, names, inBlock), LowerLabel(l, c, u, names))
  {
    hide IsUnary, IsTight, IsConjunction, Tokens, LowerExpr, Operand, HasArity;
    match l
    case Single(e) =>
      var t, x := selector + [Operator(Eq)] + Tokens(e, u, names, inBlock),
          CBin(Arithmetic(Eq), c, LowerExpr(e, u, names));
      ComparisonIsTight(selector, c, Eq, e, u, names, inBlock);
      TightIsConjunction(t, x);
      Parenthesised(t, x);
    case Range(low, high) =>
      var a := selector + [Operator(Ge)] + Tokens(low, u, names, inBlock);
      var b := selector + [Operator(Le)] + Tokens(high, u, names, inBlock);
      var x, y := CBin(Arithmetic(Ge), c, LowerExpr(low, u, names)), CBin(Arithmetic(Le), c, LowerExpr(high, u, names));
      ComparisonIsTight(selector, c, Ge, low, u, names, inBlock);
      ComparisonIsTight(selector, c, Le, high, u, names, inBlock);
      if inBlock {
        BothAreConjunction(a, x, b, y);
        Parenthesised(a + [AndAndT] + b, CBin(AndAnd, x, y));
      } else {
        TightIsConjunction(a, x);
        TightIsConjunction(b, y);
        Parenthesised(a, x);
        Parenthesised(b, y);
        BothAreConjunction([LeftPar] + a + [RightPar], x, [LeftPar] + b + [RightPar], y);
      }
  }

  lemma {:induction false} AnyOfIsOrFrom(es: seq<CExpr>)
    requires es != []
    ensures AnyOf(es) == OrFrom(es[0], es[1..])
    decreases |es|
  {
    if |es| <= 1 {
    } else {
      var n := |es| - 1;
      AnyOfIsOrFrom(es[..n]);
      assert es[..n][1..] == es[1..][..n - 1];
      OrFromLast(es[0], es[1..]);
    }
  }

  lemma {:induction false} OrFromLast(left: CExpr, es: seq<CExpr>)
    requires es != []
    ensures OrFrom(left, es) == CBin(OrOr, OrFrom(left, es[..|es| - 1]), es[|es| - 1])
    decreases |es|
  {
    if |es| == 1 {
      assert es[..0] == [];
    } else {
      OrFromLast(CBin(OrOr, left, es[0]), es[1..]);
      assert es[1..][..|es| - 2] == es[..|es| - 1][1..];
    }
  }

  // The joined labels of a CASE branch parse to the lowered condition, the
  // selector being any text that needs no parentheses.
  lemma CaseTextIsTree(labels: seq<CaseLabel>, selector: seq<Token>, c: CExpr, u: Unit, names: Naming, inBlock: bool)
    requires labels != [] && (forall l <- labels :: LabelOk(l, u, inBlock)) && IsUnary(selector, c)
    ensures ParseExpr(JoinOr(LabelsTokens(labels, selector, u, names, inBlock)))
            == Some(Parsed(AnyOf(LowerLabels(labels, c, u, names)), []))
  {
    hide IsUnary, IsConjunction, LabelTokens, LowerLabel, ParseExpr, LabelOk;
    var tests, es := LabelsTokens(labels, selector, u, names, inBlock), LowerLabels(labels, c, u, names);
    forall k | 0 <= k < |labels| ensures IsConjunction(tests[k], es[k]) {
      LabelReads(labels[k], selector, c, u, names, inBlock);
    }
    JoinedOr(tests, es);
    AnyOfIsOrFrom(es);
  }

  // ----- texts around an expression -----

  // A text that is read as it is meant.
  lemma PrintedIsExpr(e: Expr, u: Unit, names: Naming, inBlock: bool)
    requires Prints(e, u, inBlock)
    ensures IsExpr(Tokens(e, u, names, inBlock), LowerExpr(e, u, names))
  {
    hide Tokens, Spine, Units, IsExpr, IsConjunction, IsUnary, LowerExpr, Chains, Size;
    TextReads(e, u, names, inBlock);
    TreeSettled(e, u, names, inBlock);
    ReadsExpr(e, u, names, inBlock);
  }

  // !(until)
  function UntilTokens(until: seq<Token>): seq<Token> {
    [BangT] + ([LeftPar] + until + [RightPar])
  }

  lemma UntilIsExpr(until: seq<Token>, c: CExpr)
    requires IsExpr(until, c)
    ensures IsExpr(UntilTokens(until), CUn(Bang, c))
  {
    hide IsExpr, IsUnary;
    ParenthesesAreUnary(until, c);
    PrefixIsUnary(BangT, Bang, [LeftPar] + until + [RightPar], c);
    UnaryIsExpr(UntilTokens(until), CUn(Bang, c));
  }

  // (rbcpp_step >= 0) ? (s->c <= bound) : (s->c >= bound)
  function ForTestTokens(control: string, bound: seq<Token>): seq<Token> {
    ([LeftPar] + ([LocalName(STEP)] + [Operator(Ge)] + [Number(0)]) + [RightPar])
    + [Question] + ([LeftPar] + ([FieldName(control)] + [Operator(Le)] + bound) + [RightPar])
    + [Colon] + ([LeftPar] + ([FieldName(control)] + [Operator(Ge)] + bound) + [RightPar])
  }

  lemma WordIsUnary(t: Token, c: CExpr)
    requires (t.Number? && c == CInt(t.n)) || (t.FieldName? && c == CField(t.name))
        || (t.LocalName? && c == CLocal(t.name))
    ensures IsUnary([t], c)
  {
    forall k: seq<Token> ensures ParseUnary([t] + k) == Some(Parsed(c, k)) {
      assert ([t] + k)[1..] == k;
    }
  }

  // A comparison in parentheses.
  lemma TestIsExpr(l: seq<Token>, a: CExpr, op: BinaryOp, r: seq<Token>, b: CExpr)
    requires IsUnary(l, a) && IsUnary(r, b)
    ensures var t, c := [LeftPar] + (l + [Operator(op)] + r) + [RightPar], CBin(Arithmetic(op), a, b);
      IsConjunction(t, c) && IsExpr(t, c)
  {
    hide IsUnary, IsTight, IsConjunction, IsExpr;
    var t, c := l + [Operator(op)] + r, CBin(Arithmetic(op), a, b);
    PairIsTight(l, a, op, r, b);
    TightIsConjunction(t, c);
    Parenthesised(t, c);
    ConjunctionIsExpr([LeftPar] + t + [RightPar], c);
  }

  lemma ForTestIsExpr(control: string, bound: seq<Token>, b: CExpr)
    requires IsUnary(bound, b)
    ensures IsExpr(ForTestTokens(control, bound), ForTest(control, b))
  {
    hide IsUnary, IsConjunction, IsExpr;
    WordIsUnary(LocalName(STEP), CLocal(STEP));
    WordIsUnary(Number(0), CInt(0));
    WordIsUnary(FieldName(control), CField(control));
    TestIsExpr([LocalName(STEP)], CLocal(STEP), Ge, [Number(0)], CInt(0));
    TestIsExpr([FieldName(control)], CField(control), Le, bound, b);
    TestIsExpr([FieldName(control)], CField(control), Ge, bound, b);
    ConditionalIsExpr([LeftPar] + ([LocalName(STEP)] + [Operator(Ge)] + [Number(0)]) + [RightPar],
                      CBin(Arithmetic(Ge), CLocal(STEP), CInt(0)),
                      [LeftPar] + ([FieldName(control)] + [Operator(Le)] + bound) + [RightPar],
                      CBin(Arithmetic(Le), CField(control), b),
                      [LeftPar] + ([FieldName(control)] + [Operator(Ge)] + bound) + [RightPar],
                      CBin(Arithmetic(Ge), CField(control), b));
  }

  // Both selectors of CASE are operands: a program prints its expression in
  // every label, a block the name of a local. So is any number.
  lemma NumbersAreUnary(e: Expr, u: Unit, names: Naming, inBlock: bool, name: string)
    requires Prints(e, u, inBlock) && TypeOf(e, u) == Some(TInt)
    ensures Operand(e, u, inBlock)
    ensures IsUnary(Tokens(e, u, names, inBlock), LowerExpr(e, u, names))
    ensures IsUnary([LocalName(name)], CLocal(name))
  {
    hide IsUnary, Tokens, LowerExpr, OperandsOk, Glued, Chains;
    NumberIsNoChain(e, u);
    OperandIsUnary(e, u, names, inBlock);
    WordIsUnary(LocalName(name), CLocal(name));
  }

  // The program's printer never lets two minus signs meet.
  lemma {:induction false} NeverGlued(e: Expr)
    ensures !Glued(e, false)
  {
    match e
    case Unary(_, a) => NeverGlued(a);
    case Binary(_, l, r) =>
      NeverGlued(l);
      NeverGlued(r);
    case Call(_, args) => forall a <- args ensures !Glued(a, false) { NeverGlued(a); }
    case Mux(k, inputs) =>
      NeverGlued(k);
      forall a <- inputs ensures !Glued(a, false) { NeverGlued(a); }
    case _ =>
  }
}
