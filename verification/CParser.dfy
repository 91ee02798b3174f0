/**
 * C expressions as tokens, parsed by C's grammar (C11, section 6.5): a
 * conditional over binary operators of nine levels over unary ones.
 */
module CParser {
  import opened Wrappers
  import opened Values
  import opened CCode

  // `s->x` is one token; so is a local's name.
  datatype Token =
    | Number(n: nat) | Truth(b: bool) | FieldName(name: string) | LocalName(name: string)
    | LeftPar | RightPar | BangT | TildeT | OrOrT | AndAndT | Operator(op: BinaryOp) | MinusMinus | Question | Colon

  datatype Parsed = Parsed(e: CExpr, rest: seq<Token>)

  const UNARY: nat := 10

  // How tightly a binary operator binds; 0 for other tokens.
  function LevelOf(t: Token): nat {
    match t
    case OrOrT => 1
    case AndAndT => 2
    case Operator(op) =>
      (match op
       case Or => 3
       case Xor => 4
       case And => 5
       case Eq => 6
       case Ne => 6
       case Lt => 7
       case Le => 7
       case Gt => 7
       case Ge => 7
       case Add => 8
       case Sub => 8
       case Mul => 9
       case Div => 9
       case Mod => 9)
    case _ => 0
  }

  function OperatorOf(t: Token): CBinary
    requires LevelOf(t) > 0
  {
    match t
    case OrOrT => OrOr
    case AndAndT => AndAnd
    case Operator(op) => Arithmetic(op)
  }

  // conditional-expression
  function ParseExpr(ts: seq<Token>): (r: Option<Parsed>)
    ensures r.Some? ==> |r.value.rest| < |ts|
    decreases |ts|, 2, 0
  {
    var c := ParseAt(1, ts);
    if c.None? || c.value.rest == [] || c.value.rest[0] != Question then c
    else
      var y := ParseExpr(c.value.rest[1..]);
      if y.None? || y.value.rest == [] || y.value.rest[0] != Colon then None
      else
        var n := ParseExpr(y.value.rest[1..]);
        if n.None? then None else Some(Parsed(CCond(c.value.e, y.value.e, n.value.e), n.value.rest))
  }

  // Operators of one level group to the left.
  function ParseAt(level: nat, ts: seq<Token>): (r: Option<Parsed>)
    requires 1 <= level <= UNARY
    ensures r.Some? ==> |r.value.rest| < |ts|
    decreases |ts|, 1, UNARY - level
  {
    if level == UNARY then ParseUnary(ts)
    else
      var first := ParseAt(level + 1, ts);
      if first.None? then None else ParseMore(level, first.value.e, first.value.rest)
  }

  function ParseMore(level: nat, left: CExpr, ts: seq<Token>): (r: Option<Parsed>)
    requires 1 <= level < UNARY
    ensures r.Some? ==> |r.value.rest| <= |ts|
    decreases |ts|, 1, UNARY - level
  {
    if ts == [] || LevelOf(ts[0]) != level then Some(Parsed(left, ts))
    else
      var next := ParseAt(level + 1, ts[1..]);
      if next.None? then None else ParseMore(level, CBin(OperatorOf(ts[0]), left, next.value.e), next.value.rest)
  }

  function ParseUnary(ts: seq<Token>): (r: Option<Parsed>)
    ensures r.Some? ==> |r.value.rest| < |ts|
    decreases |ts|, 0, 0
  {
    if ts == [] then None
    else match ts[0]
      case Number(n) => Some(Parsed(CInt(n), ts[1..]))
      case Truth(b) => Some(Parsed(CBool(b), ts[1..]))
      case FieldName(x) => Some(Parsed(CField(x), ts[1..]))
      case LocalName(x) => Some(Parsed(CLocal(x), ts[1..]))
      case LeftPar =>
        var r := ParseExpr(ts[1..]);
        if r.None? || r.value.rest == [] || r.value.rest[0] != RightPar then None
        else Some(Parsed(r.value.e, r.value.rest[1..]))
      case BangT => UnaryOf(Bang, ParseUnary(ts[1..]))
      case TildeT => UnaryOf(Tilde, ParseUnary(ts[1..]))
      case Operator(op) => if op.Sub? then UnaryOf(Minus, ParseUnary(ts[1..])) else None
      case _ => None   // `--` needs something it can change
  }

  function UnaryOf(op: CUnary, r: Option<Parsed>): (u: Option<Parsed>)
    ensures u.Some? ==> r.Some? && u.value.rest == r.value.rest
  {
    if r.None? then None else Some(Parsed(CUn(op, r.value.e), r.value.rest))
  }

  // ----- how operands between operators are grouped -----

  // What follows binds no tighter than `level`.
  predicate Loose(ts: seq<Token>, level: nat) {
    ts != [] ==> LevelOf(ts[0]) <= level
  }

  // A text that is a unary expression is an operand of any level.
  lemma {:induction false} OperandAt(level: nat, ts: seq<Token>, e: CExpr, rest: seq<Token>)
    requires 1 <= level <= UNARY && ParseUnary(ts) == Some(Parsed(e, rest)) && Loose(rest, level - 1)
    ensures ParseAt(level, ts) == Some(Parsed(e, rest))
    decreases UNARY - level
  {
    if level < UNARY { OperandAt(level + 1, ts, e, rest); }
  }

  // And a text of a tight level is one of the looser levels.
  lemma {:induction false} LooserAt(level: nat, tight: nat, ts: seq<Token>, e: CExpr, rest: seq<Token>)
    requires 1 <= level <= tight <= UNARY && ParseAt(tight, ts) == Some(Parsed(e, rest)) && Loose(rest, level - 1)
    ensures ParseAt(level, ts) == Some(Parsed(e, rest))
    decreases tight - level
  {
    if level < tight { LooserAt(level + 1, tight, ts, e, rest); }
  }

  // `l op r` for an operator tighter than `&&`.
  lemma TightPair(l: seq<Token>, a: CExpr, op: BinaryOp, r: seq<Token>, b: CExpr, rest: seq<Token>)
    requires ParseUnary(l + ([Operator(op)] + (r + rest))) == Some(Parsed(a, [Operator(op)] + (r + rest)))
    requires ParseUnary(r + rest) == Some(Parsed(b, rest)) && Loose(rest, 2)
    ensures ParseAt(3, l + ([Operator(op)] + (r + rest))) == Some(Parsed(CBin(Arithmetic(op), a, b), rest))
  {
    var level := LevelOf(Operator(op));
    var more := [Operator(op)] + (r + rest);
    var ts, c := l + more, CBin(Arithmetic(op), a, b);
    OperandAt(level + 1, ts, a, more);
    OperandAt(level + 1, r + rest, b, rest);
    PairAt(level, ts, a, op, r + rest, b, rest);
    LooserAt(3, level, ts, c, rest);
  }

  lemma PairAt(level: nat, ts: seq<Token>, a: CExpr, op: BinaryOp, right: seq<Token>, b: CExpr, rest: seq<Token>)
    requires level == LevelOf(Operator(op)) && Loose(rest, level - 1)
    requires ParseAt(level + 1, ts) == Some(Parsed(a, [Operator(op)] + right))
    requires ParseAt(level + 1, right) == Some(Parsed(b, rest))
    ensures ParseAt(level, ts) == Some(Parsed(CBin(Arithmetic(op), a, b), rest))
  {
    assert ([Operator(op)] + right)[1..] == right;
    var c := CBin(Arithmetic(op), a, b);
    assert ParseMore(level, c, rest) == Some(Parsed(c, rest));
    assert ParseMore(level, a, [Operator(op)] + right) == Some(Parsed(c, rest));
  }

  // Operands joined by `&&`.
  function JoinAnd(units: seq<seq<Token>>): seq<Token> {
    if units == [] then [] else if |units| == 1 then units[0] else units[0] + [AndAndT] + JoinAnd(units[1..])
  }

  function FoldAnd(es: seq<CExpr>): CExpr
    requires es != []
  {
    if |es| == 1 then es[0] else CBin(AndAnd, FoldAnd(es[..|es| - 1]), es[|es| - 1])
  }

  // Folding on from what is already parsed.
  function FoldFrom(left: CExpr, es: seq<CExpr>): CExpr
    decreases |es|
  {
    if es == [] then left else FoldFrom(CBin(AndAnd, left, es[0]), es[1..])
  }

  lemma {:induction false} FoldFromFirst(left: CExpr, es: seq<CExpr>)
    ensures FoldFrom(left, es) == FoldAnd([left] + es)
    decreases |es|
  {
    if es == [] {
      assert [left] + es == [left];
    } else {
      var n := |es| - 1;
      FoldFromLast(left, es);
      FoldFromFirst(left, es[..n]);
      assert ([left] + es)[..n + 1] == [left] + es[..n];
    }
  }

  lemma {:induction false} FoldFromLast(left: CExpr, es: seq<CExpr>)
    requires es != []
    ensures FoldFrom(left, es) == CBin(AndAnd, FoldFrom(left, es[..|es| - 1]), es[|es| - 1])
    decreases |es|
  {
    if |es| == 1 {
      assert es[..0] == [];
    } else {
      FoldFromLast(CBin(AndAnd, left, es[0]), es[1..]);
      assert es[1..][..|es| - 2] == es[..|es| - 1][1..];
    }
  }

  // ----- texts that parse whatever follows -----

  ghost predicate IsUnary(t: seq<Token>, e: CExpr) {
    forall k: seq<Token> :: ParseUnary(t + k) == Some(Parsed(e, k))
  }

  // An operand of `&&`.
  ghost predicate IsTight(t: seq<Token>, e: CExpr) {
    forall k: seq<Token> | Loose(k, 2) :: ParseAt(3, t + k) == Some(Parsed(e, k))
  }

  // An operand of `||`.
  ghost predicate IsConjunction(t: seq<Token>, e: CExpr) {
    forall k: seq<Token> | Loose(k, 1) :: ParseAt(2, t + k) == Some(Parsed(e, k))
  }

  predicate EndsExpr(k: seq<Token>) {
    Loose(k, 0) && (k == [] || k[0] != Question)
  }

  ghost predicate IsExpr(t: seq<Token>, e: CExpr) {
    forall k: seq<Token> | EndsExpr(k) :: ParseExpr(t + k) == Some(Parsed(e, k))
  }

  ghost predicate AllUnary(units: seq<seq<Token>>, es: seq<CExpr>) {
    |units| == |es| > 0 && forall i :: 0 <= i < |units| ==> IsUnary(units[i], es[i])
  }

  ghost predicate AllTight(units: seq<seq<Token>>, es: seq<CExpr>) {
    |units| == |es| > 0 && forall i :: 0 <= i < |units| ==> IsTight(units[i], es[i])
  }

  lemma UnaryIsTight(t: seq<Token>, e: CExpr)
    requires IsUnary(t, e)
    ensures IsTight(t, e)
  {
    forall k: seq<Token> | Loose(k, 2) ensures ParseAt(3, t + k) == Some(Parsed(e, k)) {
      OperandAt(3, t + k, e, k);
    }
  }

  lemma AllUnaryIsTight(units: seq<seq<Token>>, es: seq<CExpr>)
    requires AllUnary(units, es)
    ensures AllTight(units, es)
  {
    forall i | 0 <= i < |units| ensures IsTight(units[i], es[i]) { UnaryIsTight(units[i], es[i]); }
  }

  lemma {:induction false} MoreConjuncts(left: CExpr, units: seq<seq<Token>>, es: seq<CExpr>, k: seq<Token>)
    requires AllTight(units, es) && Loose(k, 1)
    ensures ParseMore(2, left, [AndAndT] + (JoinAnd(units) + k)) == Some(Parsed(FoldFrom(left, es), k))
    decreases |units|
  {
    hide ParseAt, IsTight;
    var ts := [AndAndT] + (JoinAnd(units) + k);
    assert ts[1..] == JoinAnd(units) + k;
    var next := CBin(AndAnd, left, es[0]);
    if |units| == 1 {
      TightThen(units[0], es[0], k);
      assert FoldFrom(left, es) == FoldFrom(next, es[1..]);
      assert ParseMore(2, next, k) == Some(Parsed(next, k));
    } else {
      var rest := [AndAndT] + (JoinAnd(units[1..]) + k);
      assert JoinAnd(units) + k == units[0] + rest;
      TightThen(units[0], es[0], rest);
      MoreConjuncts(next, units[1..], es[1..], k);
    }
  }

  lemma TightThen(t: seq<Token>, e: CExpr, k: seq<Token>)
    requires IsTight(t, e) && Loose(k, 2)
    ensures ParseAt(3, t + k) == Some(Parsed(e, k))
  {
  }

  lemma ConjunctionThen(units: seq<seq<Token>>, es: seq<CExpr>, k: seq<Token>)
    requires AllTight(units, es) && Loose(k, 1)
    ensures ParseAt(2, JoinAnd(units) + k) == Some(Parsed(FoldAnd(es), k))
  {
    hide IsTight, ParseMore, FoldFrom, Loose;
    if |units| == 1 {
      NoMore(2, es[0], k);
      TightThen(units[0], es[0], k);
    } else {
      var rest := [AndAndT] + (JoinAnd(units[1..]) + k);
      assert JoinAnd(units) + k == units[0] + rest;
      AndIsLoose(JoinAnd(units[1..]) + k);
      TightThen(units[0], es[0], rest);
      MoreConjuncts(es[0], units[1..], es[1..], k);
      FoldFromFirst(es[0], es[1..]);
      assert [es[0]] + es[1..] == es;
    }
  }

  lemma NoMore(level: nat, left: CExpr, k: seq<Token>)
    requires 1 <= level < UNARY && Loose(k, level - 1)
    ensures ParseMore(level, left, k) == Some(Parsed(left, k)) && Loose(k, level)
  {
  }

  lemma AndIsLoose(ts: seq<Token>)
    ensures Loose([AndAndT] + ts, 2)
  {
  }

  // Operands joined by `&&` group to the left.
  lemma JoinedAnd(units: seq<seq<Token>>, es: seq<CExpr>)
    requires AllTight(units, es)
    ensures IsConjunction(JoinAnd(units), FoldAnd(es))
  {
    hide ParseAt, Loose, IsTight, JoinAnd, FoldAnd;
    forall k: seq<Token> | Loose(k, 1) ensures ParseAt(2, JoinAnd(units) + k) == Some(Parsed(FoldAnd(es), k)) {
      ConjunctionThen(units, es, k);
    }
  }

  lemma ConjunctionIsExpr(t: seq<Token>, e: CExpr)
    requires IsConjunction(t, e)
    ensures IsExpr(t, e)
  {
    forall k: seq<Token> | EndsExpr(k) ensures ParseExpr(t + k) == Some(Parsed(e, k)) {
      LooserAt(1, 2, t + k, e, k);
    }
  }

  lemma OrThen(ts: seq<Token>, a: CExpr, rest: seq<Token>, b: CExpr, k: seq<Token>)
    requires ParseAt(2, ts) == Some(Parsed(a, [OrOrT] + rest)) && ParseAt(2, rest) == Some(Parsed(b, k)) && EndsExpr(k)
    ensures ParseExpr(ts) == Some(Parsed(CBin(OrOr, a, b), k))
  {
    assert ([OrOrT] + rest)[1..] == rest;
    NoMore(1, CBin(OrOr, a, b), k);
    assert ParseMore(1, a, [OrOrT] + rest) == Some(Parsed(CBin(OrOr, a, b), k));
  }

  lemma OrIsExpr(l: seq<Token>, a: CExpr, r: seq<Token>, b: CExpr)
    requires IsConjunction(l, a) && IsConjunction(r, b)
    ensures IsExpr(l + [OrOrT] + r, CBin(OrOr, a, b))
  {
    hide ParseExpr, ParseAt;
    forall k: seq<Token> | EndsExpr(k) ensures ParseExpr(l + [OrOrT] + r + k) == Some(Parsed(CBin(OrOr, a, b), k)) {
      ThreeParts(l, [OrOrT], r, k);
      OrThen(l + ([OrOrT] + (r + k)), a, r + k, b, k);
    }
  }

  lemma PairIsTight(l: seq<Token>, a: CExpr, op: BinaryOp, r: seq<Token>, b: CExpr)
    requires IsUnary(l, a) && IsUnary(r, b)
    ensures IsTight(l + [Operator(op)] + r, CBin(Arithmetic(op), a, b))
  {
    hide ParseUnary, ParseAt, Loose;
    forall k: seq<Token> | Loose(k, 2)
      ensures ParseAt(3, l + [Operator(op)] + r + k) == Some(Parsed(CBin(Arithmetic(op), a, b), k))
    {
      ThreeParts(l, [Operator(op)], r, k);
      TightPair(l, a, op, r, b, k);
    }
  }

  lemma ThreeParts<T>(a: seq<T>, b: seq<T>, c: seq<T>, d: seq<T>)
    ensures a + b + c + d == a + (b + (c + d))
  {
  }

  lemma ParenthesesThen(t: seq<Token>, e: CExpr, k: seq<Token>)
    requires ParseExpr(t + ([RightPar] + k)) == Some(Parsed(e, [RightPar] + k))
    ensures ParseUnary([LeftPar] + (t + ([RightPar] + k))) == Some(Parsed(e, k))
  {
    hide ParseExpr;
    assert ([LeftPar] + (t + ([RightPar] + k)))[1..] == t + ([RightPar] + k);
    assert ([RightPar] + k)[1..] == k;
  }

  lemma ParenthesesAreUnary(t: seq<Token>, e: CExpr)
    requires IsExpr(t, e)
    ensures IsUnary([LeftPar] + t + [RightPar], e)
  {
    hide ParseExpr, ParseUnary;
    forall k: seq<Token> ensures ParseUnary([LeftPar] + t + [RightPar] + k) == Some(Parsed(e, k)) {
      ThreeParts([LeftPar], t, [RightPar], k);
      ParenthesesThen(t, e, k);
    }
  }

  predicate IsPrefix(p: Token, op: CUnary) {
    (p == BangT && op == Bang) || (p == TildeT && op == Tilde) || (p == Operator(Sub) && op == Minus)
  }

  lemma PrefixThen(p: Token, op: CUnary, ts: seq<Token>)
    requires IsPrefix(p, op)
    ensures ParseUnary([p] + ts) == UnaryOf(op, ParseUnary(ts))
  {
    assert ([p] + ts)[1..] == ts;
  }

  lemma PrefixIsUnary(p: Token, op: CUnary, t: seq<Token>, e: CExpr)
    requires IsUnary(t, e) && IsPrefix(p, op)
    ensures IsUnary([p] + t, CUn(op, e))
  {
    hide ParseUnary, IsPrefix;
    forall k: seq<Token> ensures ParseUnary([p] + t + k) == Some(Parsed(CUn(op, e), k)) {
      assert [p] + t + k == [p] + (t + k);
      PrefixThen(p, op, t + k);
    }
  }

  lemma UnaryIsExpr(t: seq<Token>, e: CExpr)
    requires IsUnary(t, e)
    ensures IsExpr(t, e)
  {
    forall k: seq<Token> | EndsExpr(k) ensures ParseExpr(t + k) == Some(Parsed(e, k)) {
      OperandAt(1, t + k, e, k);
    }
  }

  lemma WholeText(t: seq<Token>, e: CExpr)
    requires IsExpr(t, e)
    ensures ParseExpr(t) == Some(Parsed(e, []))
  {
    hide ParseExpr;
    assert t + [] == t && EndsExpr([]);
  }

  // test ? yes : no
  lemma ConditionalThen(c: CExpr, a: CExpr, b: CExpr, ts: seq<Token>, rest1: seq<Token>, rest2: seq<Token>,
      k: seq<Token>)
    requires ParseAt(1, ts) == Some(Parsed(c, [Question] + rest1))
    requires ParseExpr(rest1) == Some(Parsed(a, [Colon] + rest2))
    requires ParseExpr(rest2) == Some(Parsed(b, k))
    ensures ParseExpr(ts) == Some(Parsed(CCond(c, a, b), k))
  {
    hide ParseAt;
    assert ([Question] + rest1)[1..] == rest1 && ([Colon] + rest2)[1..] == rest2;
  }

  lemma SixParts<T>(a: seq<T>, b: seq<T>, c: seq<T>, d: seq<T>, e: seq<T>, f: seq<T>)
    ensures a + b + c + d + e + f == a + (b + (c + (d + (e + f))))
  {
  }

  lemma ConditionalIsExpr(t: seq<Token>, c: CExpr, y: seq<Token>, a: CExpr, n: seq<Token>, b: CExpr)
    requires IsConjunction(t, c) && IsExpr(y, a) && IsExpr(n, b)
    ensures IsExpr(t + [Question] + y + [Colon] + n, CCond(c, a, b))
  {
    hide ParseExpr, ParseAt;
    forall k: seq<Token> | EndsExpr(k)
      ensures ParseExpr(t + [Question] + y + [Colon] + n + k) == Some(Parsed(CCond(c, a, b), k))
    {
      var rest2 := n + k;
      var rest1 := y + ([Colon] + rest2);
      SixParts(t, [Question], y, [Colon], n, k);
      LooserAt(1, 2, t + ([Question] + rest1), c, [Question] + rest1);
      ConditionalThen(c, a, b, t + ([Question] + rest1), rest1, rest2, k);
    }
  }

  // ----- joining conjunctions -----

  lemma {:induction false} JoinAndAppend(a: seq<seq<Token>>, b: seq<seq<Token>>)
    requires a != [] && b != []
    ensures JoinAnd(a + b) == JoinAnd(a) + [AndAndT] + JoinAnd(b)
    decreases |a|
  {
    assert (a + b)[1..] == a[1..] + b;
    if |a| > 1 {
      JoinAndAppend(a[1..], b);
    } else {
      assert a[1..] + b == b;
    }
  }

  // The operands when a tighter operator stands between two conjunctions.
  function Fused<T>(l: seq<T>, middle: T, r: seq<T>): (s: seq<T>)
    requires l != [] && r != []
    ensures |s| == |l| + |r| - 1
  {
    l[..|l| - 1] + [middle] + r[1..]
  }

  lemma {:induction false} FusedJoin(l: seq<seq<Token>>, op: Token, r: seq<seq<Token>>)
    requires l != [] && r != []
    ensures JoinAnd(l) + [op] + JoinAnd(r) == JoinAnd(Fused(l, l[|l| - 1] + [op] + r[0], r))
    decreases |l|
  {
    var middle := l[|l| - 1] + [op] + r[0];
    var all := Fused(l, middle, r);
    if |l| > 1 {
      FusedJoin(l[1..], op, r);
      assert all[1..] == Fused(l[1..], middle, r) && all[0] == l[0];
      assert JoinAnd(l) == l[0] + [AndAndT] + JoinAnd(l[1..]);
      assert JoinAnd(all) == l[0] + [AndAndT] + JoinAnd(all[1..]);
    } else if |r| > 1 {
      assert all[0] == middle && all[1..] == r[1..];
      assert JoinAnd(r) == r[0] + [AndAndT] + JoinAnd(r[1..]);
    } else {
      assert all == [middle];
    }
  }

  // The tree C makes of `l op r`, both sides being conjunctions.
  function Grouped(op: CBinary, l: seq<CExpr>, r: seq<CExpr>): CExpr
    requires l != [] && r != []
  {
    match op
    case OrOr => CBin(OrOr, FoldAnd(l), FoldAnd(r))
    case AndAnd => FoldAnd(l + r)
    case Arithmetic(o) => FoldAnd(Fused(l, CBin(Arithmetic(o), l[|l| - 1], r[0]), r))
  }

  function OperatorToken(op: CBinary): Token {
    match op
    case OrOr => OrOrT
    case AndAnd => AndAndT
    case Arithmetic(o) => Operator(o)
  }

  lemma FusedIsExpr(l: seq<seq<Token>>, a: seq<CExpr>, op: BinaryOp, r: seq<seq<Token>>, b: seq<CExpr>)
    requires AllUnary(l, a) && AllUnary(r, b)
    ensures IsExpr(JoinAnd(l) + [Operator(op)] + JoinAnd(r), Grouped(Arithmetic(op), a, b))
  {
    hide IsUnary, IsTight, IsConjunction, IsExpr, JoinAnd, FoldAnd;
    AllUnaryIsTight(l, a);
    AllUnaryIsTight(r, b);
    var m, n := |l| - 1, Operator(op);
    FusedJoin(l, n, r);
    PairIsTight(l[m], a[m], op, r[0], b[0]);
    var units, es := Fused(l, l[m] + [n] + r[0], r), Fused(a, CBin(Arithmetic(op), a[m], b[0]), b);
    assert AllTight(units, es);
    JoinedAnd(units, es);
    ConjunctionIsExpr(JoinAnd(units), FoldAnd(es));
  }

  lemma GroupedIsExpr(l: seq<seq<Token>>, a: seq<CExpr>, op: CBinary, r: seq<seq<Token>>, b: seq<CExpr>)
    requires AllUnary(l, a) && AllUnary(r, b)
    ensures IsExpr(JoinAnd(l) + [OperatorToken(op)] + JoinAnd(r), Grouped(op, a, b))
  {
    hide IsUnary, IsTight, IsConjunction, IsExpr, JoinAnd, FoldAnd;
    AllUnaryIsTight(l, a);
    AllUnaryIsTight(r, b);
    match op
    case OrOr =>
      JoinedAnd(l, a);
      JoinedAnd(r, b);
      OrIsExpr(JoinAnd(l), FoldAnd(a), JoinAnd(r), FoldAnd(b));
    case AndAnd =>
      JoinAndAppend(l, r);
      JoinedAnd(l + r, a + b);
      ConjunctionIsExpr(JoinAnd(l + r), FoldAnd(a + b));
    case Arithmetic(o) => FusedIsExpr(l, a, o, r, b);
  }

  // ----- operands joined by `||` -----

  function JoinOr(tests: seq<seq<Token>>): seq<Token> {
    if tests == [] then [] else if |tests| == 1 then tests[0] else tests[0] + [OrOrT] + JoinOr(tests[1..])
  }

  function OrFrom(left: CExpr, es: seq<CExpr>): CExpr
    decreases |es|
  {
    if es == [] then left else OrFrom(CBin(OrOr, left, es[0]), es[1..])
  }

  ghost predicate AllConjunctions(tests: seq<seq<Token>>, es: seq<CExpr>) {
    |tests| == |es| > 0 && forall i :: 0 <= i < |tests| ==> IsConjunction(tests[i], es[i])
  }

  lemma ConjunctionNext(t: seq<Token>, e: CExpr, k: seq<Token>)
    requires IsConjunction(t, e) && Loose(k, 1)
    ensures ParseAt(2, t + k) == Some(Parsed(e, k))
  {
  }

  lemma OrIsLoose(ts: seq<Token>)
    ensures Loose([OrOrT] + ts, 1)
  {
  }

  lemma {:induction false} MoreDisjuncts(left: CExpr, tests: seq<seq<Token>>, es: seq<CExpr>, k: seq<Token>)
    requires AllConjunctions(tests, es) && Loose(k, 0)
    ensures ParseMore(1, left, [OrOrT] + (JoinOr(tests) + k)) == Some(Parsed(OrFrom(left, es), k))
    decreases |tests|
  {
    hide ParseAt, IsConjunction;
    var ts := [OrOrT] + (JoinOr(tests) + k);
    assert ts[1..] == JoinOr(tests) + k;
    var next := CBin(OrOr, left, es[0]);
    if |tests| == 1 {
      ConjunctionNext(tests[0], es[0], k);
      assert OrFrom(left, es) == OrFrom(next, es[1..]);
      assert ParseMore(1, next, k) == Some(Parsed(next, k));
    } else {
      var rest := [OrOrT] + (JoinOr(tests[1..]) + k);
      assert JoinOr(tests) + k == tests[0] + rest;
      ConjunctionNext(tests[0], es[0], rest);
      MoreDisjuncts(next, tests[1..], es[1..], k);
    }
  }

  // Operands joined by `||` group to the left.
  lemma JoinedOr(tests: seq<seq<Token>>, es: seq<CExpr>)
    requires AllConjunctions(tests, es)
    ensures ParseExpr(JoinOr(tests)) == Some(Parsed(OrFrom(es[0], es[1..]), []))
  {
    hide IsConjunction, ParseMore;
    if |tests| == 1 {
      assert tests[0] + [] == tests[0];
      ConjunctionNext(tests[0], es[0], []);
      NoMore(1, es[0], []);
    } else {
      var rest := [OrOrT] + (JoinOr(tests[1..]) + []);
      assert JoinOr(tests) == tests[0] + rest;
      OrIsLoose(JoinOr(tests[1..]) + []);
      ConjunctionNext(tests[0], es[0], rest);
      MoreDisjuncts(es[0], tests[1..], es[1..], []);
    }
  }

  // ----- `--` is never part of an expression -----

  ghost predicate Consumes(ts: seq<Token>, rest: seq<Token>) {
    |rest| <= |ts| && rest == ts[|ts| - |rest|..] && MinusMinus !in ts[..|ts| - |rest|]
  }

  lemma ConsumesThen(ts: seq<Token>, mid: seq<Token>, rest: seq<Token>)
    requires Consumes(ts, mid) && Consumes(mid, rest)
    ensures Consumes(ts, rest)
  {
    var n, m := |ts| - |mid|, |ts| - |rest|;
    assert ts[..m] == ts[..n] + mid[..|mid| - |rest|];
  }

  lemma ConsumesOne(ts: seq<Token>)
    requires ts != [] && ts[0] != MinusMinus
    ensures Consumes(ts, ts[1..])
  {
    assert ts[..1] == [ts[0]];
  }

  lemma {:induction false} ExprConsumes(ts: seq<Token>)
    requires ParseExpr(ts).Some?
    ensures Consumes(ts, ParseExpr(ts).value.rest)
    decreases |ts|, 2, 0
  {
    hide Consumes, ParseAt;
    AtConsumes(1, ts);
    var r := ParseAt(1, ts).value.rest;
    if r != [] && r[0] == Question {
      ConsumesOne(r);
      ExprConsumes(r[1..]);
      var y := ParseExpr(r[1..]).value.rest;
      ConsumesOne(y);
      ExprConsumes(y[1..]);
      ConsumesThen(y, y[1..], ParseExpr(ts).value.rest);
      ConsumesThen(r[1..], y, ParseExpr(ts).value.rest);
      ConsumesThen(r, r[1..], ParseExpr(ts).value.rest);
      ConsumesThen(ts, r, ParseExpr(ts).value.rest);
    }
  }

  lemma {:induction false} AtConsumes(level: nat, ts: seq<Token>)
    requires 1 <= level <= UNARY && ParseAt(level, ts).Some?
    ensures Consumes(ts, ParseAt(level, ts).value.rest)
    decreases |ts|, 1, UNARY - level
  {
    hide Consumes, ParseUnary, ParseMore;
    if level == UNARY {
      UnaryConsumes(ts);
    } else {
      AtConsumes(level + 1, ts);
      var first := ParseAt(level + 1, ts).value;
      MoreConsumes(level, first.e, first.rest);
      ConsumesThen(ts, first.rest, ParseAt(level, ts).value.rest);
    }
  }

  lemma {:induction false} MoreConsumes(level: nat, left: CExpr, ts: seq<Token>)
    requires 1 <= level < UNARY && ParseMore(level, left, ts).Some?
    ensures Consumes(ts, ParseMore(level, left, ts).value.rest)
    decreases |ts|, 1, UNARY - level
  {
    hide ParseAt;
    if ts != [] && LevelOf(ts[0]) == level {
      hide Consumes;
      ConsumesOne(ts);
      AtConsumes(level + 1, ts[1..]);
      var next := ParseAt(level + 1, ts[1..]).value;
      MoreConsumes(level, CBin(OperatorOf(ts[0]), left, next.e), next.rest);
      var rest := ParseMore(level, left, ts).value.rest;
      ConsumesThen(ts[1..], next.rest, rest);
      ConsumesThen(ts, ts[1..], rest);
    }
  }

  lemma {:induction false} UnaryConsumes(ts: seq<Token>)
    requires ParseUnary(ts).Some?
    ensures Consumes(ts, ParseUnary(ts).value.rest)
    decreases |ts|, 0, 0
  {
    hide Consumes, ParseExpr;
    ConsumesOne(ts);
    match ts[0]
    case LeftPar =>
      ExprConsumes(ts[1..]);
      var rest := ParseExpr(ts[1..]).value.rest;
      ConsumesOne(rest);
      ConsumesThen(ts[1..], rest, rest[1..]);
      ConsumesThen(ts, ts[1..], rest[1..]);
    case BangT =>
      UnaryConsumes(ts[1..]);
      ConsumesThen(ts, ts[1..], ParseUnary(ts).value.rest);
    case TildeT =>
      UnaryConsumes(ts[1..]);
      ConsumesThen(ts, ts[1..], ParseUnary(ts).value.rest);
    case Operator(_) =>
      UnaryConsumes(ts[1..]);
      ConsumesThen(ts, ts[1..], ParseUnary(ts).value.rest);
    case _ =>
  }

  // No text with `--` in it is an expression.
  lemma MinusMinusFails(ts: seq<Token>)
    requires MinusMinus in ts
    ensures ParseExpr(ts).None? || ParseExpr(ts).value.rest != []
  {
    hide ParseExpr;
    assert ts[..|ts|] == ts;
    if ParseExpr(ts).Some? { ExprConsumes(ts); }
  }
}
