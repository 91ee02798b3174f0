/**
 * The text of emitted statements, and the theorem about it: what C reads from
 * the text of a supported program does what the program does.
 */
module StatementText {
  import opened Wrappers
  import opened Values
  import opened StructuredText
  import opened CCode
  import opened Lowering
  import opened CParser
  import opened Printer
  import opened CLines
  import opened StoreFrames
  import opened ExpressionMeaning
  import opened StatementMeaning
  import FieldNames

  // A line of text, its expressions as tokens.
  type TextLine = Line<seq<Token>>

  function Printed(e: Expr, u: Unit, names: Naming, cx: Context): seq<Token> {
    Tokens(e, u, names, cx.Body?)
  }

  // `emit_statement` in a program, `emit_user_fb_statement` in a body.
  function BlockText(ss: seq<Statement>, u: Unit, names: Naming, cx: Context): seq<TextLine>
    decreases u, ss, 0
  {
    if ss == [] then [] else TextOf(ss[0], u, names, cx) + BlockText(ss[1..], u, names, cx)
  }

  function TextOf(s: Statement, u: Unit, names: Naming, cx: Context): seq<TextLine>
    decreases u, s
  {
    match s
    case Empty => if cx.Program? then [LComment] else []
    case Assignment(target, value) => [LAssign(names(target), Printed(value, u, names, cx))]
    case If(branches, otherwise) => BranchText(branches, 0, u, names, cx) + ElseText(otherwise, u, names, cx)
    case CaseOf(selector, cases, otherwise) =>
      if cx.Program? then
        CaseText(cases, 0, Printed(selector, u, names, cx), u, names, cx) + ElseText(otherwise, u, names, cx)
      else
        [LDecl(SELECTOR, Printed(selector, u, names, cx))]
        + (CaseText(cases, 0, [LocalName(SELECTOR)], u, names, cx) + ElseText(otherwise, u, names, cx))
    case For(control, first, bound, step, body) =>
      var c := names([control]);
      [LOpen, LDecl(STEP, StepText(step, u, names, cx)),
       LFor(c, Printed(first, u, names, cx), ForTestTokens(c, Printed(bound, u, names, cx)), [LocalName(STEP)])]
      + BlockText(body, u, names, cx) + [LClose, LClose]
    case While(condition, body) => [LWhile(Printed(condition, u, names, cx))] + BlockText(body, u, names, cx) + [LClose]
    case Repeat(body, until) => [LDo] + BlockText(body, u, names, cx)
        + [LDoEnd(UntilTokens(Printed(until, u, names, cx)))]
    case Exit => [LBreak]
    case Return => [if cx.Program? then LReturn else LGoto(cx.target)]
    case FbCall(instance, arguments) =>
      if !HasInstance(u, instance) then [LComment]
      else
        var block, target := BlockOf(u, instance), ReturnLabel(names, instance);
        InputText(arguments, 0, block, instance, u, names, cx)
        + ([LDo] + BlockText(block.body, block, Under(names, instance), Body(target)) + [LLabel(target), LOnceEnd])
        + InOutText(arguments, 0, block, instance, names)
        + OutputText(arguments, instance, names)
  }

  function StepText(step: Option<Expr>, u: Unit, names: Naming, cx: Context): seq<Token> {
    if step.Some? then Printed(step.value, u, names, cx) else [Number(1)]
  }

  // The branches from the k-th on.
  function BranchText(branches: seq<Branch>, k: nat, u: Unit, names: Naming, cx: Context): seq<TextLine>
    requires k <= |branches|
    decreases u, branches, |branches| - k
  {
    if k == |branches| then []
    else
      ArmOpening(k, Printed(branches[k].condition, u, names, cx)) + BlockText(branches[k].body, u, names, cx) + [LClose]
      + BranchText(branches, k + 1, u, names, cx)
  }

  function CaseText(cases: seq<Case>, k: nat, selector: seq<Token>, u: Unit, names: Naming, cx: Context): seq<TextLine>
    requires k <= |cases|
    decreases u, cases, |cases| - k
  {
    if k == |cases| then []
    else
      ArmOpening(k, JoinOr(LabelsTokens(cases[k].labels, selector, u, names, cx.Body?)))
      + BlockText(cases[k].body, u, names, cx) + [LClose]
      + CaseText(cases, k + 1, selector, u, names, cx)
  }

  function ElseText(otherwise: seq<Statement>, u: Unit, names: Naming, cx: Context): seq<TextLine>
    decreases u, otherwise, 1
  {
    if otherwise == [] then [] else [LElse] + BlockText(otherwise, u, names, cx) + [LClose]
  }

  function InputText(args: seq<Argument>, position: nat, block: Unit, instance: Name, u: Unit, names: Naming,
      cx: Context): seq<TextLine> {
    if args == [] then []
    else
      var t := InputTarget(InputFields(block.vars), args[0], position);
      (if t.None? then [] else [LAssign(names([instance, t.value.name]), Printed(args[0].expr, u, names, cx))])
      + InputText(args[1..], NextPosition(args[0], position), block, instance, u, names, cx)
  }

  function InOutText(args: seq<Argument>, position: nat, block: Unit, instance: Name, names: Naming): seq<TextLine> {
    if args == [] then []
    else
      var t := InputTarget(InputFields(block.vars), args[0], position);
      (if t.Some? && t.value.kind.VarInOut? && args[0].expr.Variable?
       then [LAssign(names(args[0].expr.path), [FieldName(names([instance, t.value.name]))])] else [])
      + InOutText(args[1..], NextPosition(args[0], position), block, instance, names)
  }

  function OutputText(args: seq<Argument>, instance: Name, names: Naming): seq<TextLine> {
    if args == [] then []
    else
      (if args[0].Output? then [LAssign(names(args[0].target), [FieldName(names([instance, args[0].field]))])] else [])
      + OutputText(args[1..], instance, names)
  }

  // ----- what C reads from a text -----

  // The whole text of an expression.
  function ReadTokens(ts: seq<Token>): Option<CExpr> {
    var r := ParseExpr(ts);
    if r.None? || r.value.rest != [] then None else Some(r.value.e)
  }

  function ReadLine(l: TextLine): Option<CLine> {
    match l
    case LAssign(x, v) => var e := ReadTokens(v); if e.None? then None else Some(LAssign(x, e.value))
    case LIf(t) => var e := ReadTokens(t); if e.None? then None else Some(LIf(e.value))
    case LElseIf(t) => var e := ReadTokens(t); if e.None? then None else Some(LElseIf(e.value))
    case LWhile(t) => var e := ReadTokens(t); if e.None? then None else Some(LWhile(e.value))
    case LDoEnd(t) => var e := ReadTokens(t); if e.None? then None else Some(LDoEnd(e.value))
    case LDecl(x, v) => var e := ReadTokens(v); if e.None? then None else Some(LDecl(x, e.value))
    case LFor(x, first, test, step) =>
      var a, t, i := ReadTokens(first), ReadTokens(test), ReadTokens(step);
      if a.None? || t.None? || i.None? then None else Some(LFor(x, a.value, t.value, i.value))
    case LElse => Some(LElse)
    case LDo => Some(LDo)
    case LOpen => Some(LOpen)
    case LClose => Some(LClose)
    case LComment => Some(LComment)
    case LBreak => Some(LBreak)
    case LReturn => Some(LReturn)
    case LGoto(target) => Some(LGoto(target))
    case LLabel(target) => Some(LLabel(target))
    case LOnceEnd => Some(LOnceEnd)
  }

  function ReadEach(text: seq<TextLine>): Option<seq<CLine>> {
    if text == [] then Some([])
    else
      var l := ReadLine(text[0]);
      var more := ReadEach(text[1..]);
      if l.None? || more.None? then None else Some([l.value] + more.value)
  }

  // The block that the text is.
  function ReadText(text: seq<TextLine>): Option<seq<CStmt>> {
    var lines := ReadEach(text);
    var block := if lines.None? then None else ReadBlock(lines.value);
    if block.None? || block.value.rest != [] then None else Some(block.value.value)
  }

  // ----- line by line -----

  ghost predicate IsTextOf(text: seq<TextLine>, ls: seq<CLine>) {
    |text| == |ls| && forall k :: 0 <= k < |ls| ==> ReadLine(text[k]) == Some(ls[k])
  }

  lemma Appended(a: seq<TextLine>, x: seq<CLine>, b: seq<TextLine>, y: seq<CLine>)
    requires IsTextOf(a, x) && IsTextOf(b, y)
    ensures IsTextOf(a + b, x + y)
  {
    hide ReadLine;
  }

  lemma {:induction false} ReadEachOf(text: seq<TextLine>, ls: seq<CLine>)
    requires IsTextOf(text, ls)
    ensures ReadEach(text) == Some(ls)
    decreases |text|
  {
    hide ReadLine;
    if text == [] {
    } else {
      ReadEachOf(text[1..], ls[1..]);
      assert ls == [ls[0]] + ls[1..];
    }
  }

  // The text of a block: its lines are those of the lowered block.
  ghost predicate Spells(text: seq<TextLine>, cs: seq<CStmt>) {
    IsTextOf(text, Lines(cs)) && Shaped(cs)
  }

  lemma {:induction false} LinesAppend(a: seq<CStmt>, b: seq<CStmt>)
    ensures Lines(a + b) == Lines(a) + Lines(b)
    decreases |a|
  {
    if a == [] {
      assert a + b == b;
    } else {
      assert (a + b)[1..] == a[1..] + b;
      LinesAppend(a[1..], b);
    }
  }

  lemma SpellsBoth(a: seq<TextLine>, x: seq<CStmt>, b: seq<TextLine>, y: seq<CStmt>)
    requires Spells(a, x) && Spells(b, y)
    ensures Spells(a + b, x + y)
  {
    hide IsTextOf, Lines;
    LinesAppend(x, y);
    Appended(a, Lines(x), b, Lines(y));
  }

  lemma SpellsNothing()
    ensures Spells([], [])
  {
  }

  lemma SpellsOne(text: seq<TextLine>, c: CStmt)
    requires IsTextOf(text, LinesOf(c)) && StatementShaped(c)
    ensures Spells(text, [c])
  {
    hide IsTextOf, StatementShaped, Lines;
    OneStatement(c);
    assert forall d <- [c] :: d == c;
  }

  lemma OneStatement(c: CStmt)
    ensures Lines([c]) == LinesOf(c)
  {
    hide LinesOf;
    assert [c][1..] == [] && Lines([]) == [];
    assert LinesOf(c) + [] == LinesOf(c);
  }

  // A body between two lines.
  lemma SpellsBraced(open: seq<TextLine>, a: seq<CLine>, body: seq<TextLine>, cs: seq<CStmt>, close: seq<TextLine>,
      b: seq<CLine>)
    requires IsTextOf(open, a) && Spells(body, cs) && IsTextOf(close, b)
    ensures IsTextOf(open + body + close, a + Lines(cs) + b)
  {
    hide IsTextOf, Lines;
    Appended(open, a, body, Lines(cs));
    Appended(open + body, a + Lines(cs), close, b);
  }

  lemma PrintedIsRead(e: Expr, u: Unit, names: Naming, cx: Context)
    requires Prints(e, u, cx.Body?)
    ensures ReadTokens(Printed(e, u, names, cx)) == Some(LowerExpr(e, u, names))
  {
    hide IsExpr, ParseExpr, Tokens, LowerExpr, OperandsOk, Glued;
    PrintedIsExpr(e, u, names, cx.Body?);
    WholeText(Printed(e, u, names, cx), LowerExpr(e, u, names));
  }

  lemma FieldIsRead(x: string)
    ensures ReadTokens([FieldName(x)]) == Some(CField(x))
    ensures ReadTokens([LocalName(x)]) == Some(CLocal(x))
    ensures ReadTokens([Number(1)]) == Some(CInt(1))
  {
    hide IsUnary, IsExpr, ParseExpr;
    WordIsUnary(FieldName(x), CField(x));
    WordIsUnary(LocalName(x), CLocal(x));
    WordIsUnary(Number(1), CInt(1));
    UnaryIsExpr([FieldName(x)], CField(x));
    UnaryIsExpr([LocalName(x)], CLocal(x));
    UnaryIsExpr([Number(1)], CInt(1));
    WholeText([FieldName(x)], CField(x));
    WholeText([LocalName(x)], CLocal(x));
    WholeText([Number(1)], CInt(1));
  }

  // ----- the text is the lowered block -----

  lemma {:induction false} BlockSpells(ss: seq<Statement>, u: Unit, names: Naming, cx: Context)
    requires SupportedBlock(ss, u, cx.Body?) && SupportedInstances(u)
    ensures Spells(BlockText(ss, u, names, cx), LowerBlock(ss, u, names, cx))
    decreases u, ss, 0
  {
    hide TextOf, Lower, Spells, SupportedStatement, SupportedInstances;
    if ss == [] {
      SpellsNothing();
    } else {
      assert ss[0] in ss;
      StatementSpells(ss[0], u, names, cx);
      BlockSpells(ss[1..], u, names, cx);
      SpellsBoth(TextOf(ss[0], u, names, cx), Lower(ss[0], u, names, cx),
                 BlockText(ss[1..], u, names, cx), LowerBlock(ss[1..], u, names, cx));
    }
  }

  lemma SpellsLine(text: TextLine, c: CStmt)
    requires LinesOf(c) != [] && LinesOf(c)[1..] == [] && ReadLine(text) == Some(LinesOf(c)[0]) && StatementShaped(c)
    ensures Spells([text], [c])
  {
    hide ReadLine, StatementShaped, LinesOf;
    SpellsOne([text], c);
  }

  lemma {:induction false} StatementSpells(s: Statement, u: Unit, names: Naming, cx: Context)
    requires SupportedStatement(s, u, cx.Body?) && SupportedInstances(u)
    ensures Spells(TextOf(s, u, names, cx), Lower(s, u, names, cx))
    decreases u, s
  {
    hide Spells, SupportedInstances, LowerExpr, ReadTokens, Printed, LowerBlock, BlockText, SupportedBlock,
         BranchText, CaseText, ElseText, LowerBranches, LowerCases, LowerElse, Prints, StableBound, HasMeaning,
         SupportedArguments;
    match s
    case Empty =>
      SpellsNothing();
      SpellsLine(LComment, CComment);
    case Assignment(target, value) =>
      PrintedIsRead(value, u, names, cx);
      SpellsLine(LAssign(names(target), Printed(value, u, names, cx)),
          CAssign(names(target), LowerExpr(value, u, names)));
    case If(branches, otherwise) => IfSpells(s, u, names, cx);
    case CaseOf(_, _, _) => SelectionSpells(s, u, names, cx);
    case For(_, _, _, _, body) =>
      BlockSpells(body, u, names, cx);
      ForSpells(s, u, names, cx);
    case While(condition, body) =>
      PrintedIsRead(condition, u, names, cx);
      BlockSpells(body, u, names, cx);
      WhileSpells(s, u, names, cx);
    case Repeat(body, until) =>
      BlockSpells(body, u, names, cx);
      RepeatSpells(s, u, names, cx);
    case Exit => SpellsLine(LBreak, CBreak);
    case Return =>
      if cx.Program? { SpellsLine(LReturn, CReturn); } else { SpellsLine(LGoto(cx.target), CGoto(cx.target)); }
    case FbCall(instance, _) => CallSpells(s, u, names, cx);
  }

  lemma WhileSpells(s: Statement, u: Unit, names: Naming, cx: Context)
    requires s.While? && Prints(s.condition, u, cx.Body?)
    requires Spells(BlockText(s.body, u, names, cx), LowerBlock(s.body, u, names, cx))
    ensures Spells(TextOf(s, u, names, cx), Lower(s, u, names, cx))
  {
    hide LowerExpr, ReadTokens, Printed, LowerBlock, BlockText, Prints, Lines;
    var t, c := Printed(s.condition, u, names, cx), LowerExpr(s.condition, u, names);
    PrintedIsRead(s.condition, u, names, cx);
    SpellsBraced([LWhile(t)], [LWhile(c)], BlockText(s.body, u, names, cx), LowerBlock(s.body, u, names, cx),
        [LClose], [LClose]);
    hide IsTextOf, Shaped;
    SpellsOne(TextOf(s, u, names, cx), CWhile(c, LowerBlock(s.body, u, names, cx)));
  }

  lemma RepeatSpells(s: Statement, u: Unit, names: Naming, cx: Context)
    requires s.Repeat? && Prints(s.until, u, cx.Body?)
    requires Spells(BlockText(s.body, u, names, cx), LowerBlock(s.body, u, names, cx))
    ensures Spells(TextOf(s, u, names, cx), Lower(s, u, names, cx))
  {
    hide LowerExpr, LowerBlock, BlockText, Prints, Lines, ParseExpr, IsExpr, UntilTokens, Tokens;
    var t, c := UntilTokens(Printed(s.until, u, names, cx)), CUn(Bang, LowerExpr(s.until, u, names));
    PrintedIsExpr(s.until, u, names, cx.Body?);
    UntilIsExpr(Printed(s.until, u, names, cx), LowerExpr(s.until, u, names));
    WholeText(t, c);
    SpellsBraced([LDo], [LDo], BlockText(s.body, u, names, cx), LowerBlock(s.body, u, names, cx), [LDoEnd(t)],
        [LDoEnd(c)]);
    hide IsTextOf, Shaped;
    SpellsOne(TextOf(s, u, names, cx), CDoWhile(LowerBlock(s.body, u, names, cx), c));
  }

  lemma StepIsRead(step: Option<Expr>, u: Unit, names: Naming, cx: Context)
    requires step.Some? ==> Prints(step.value, u, cx.Body?)
    ensures ReadTokens(StepText(step, u, names, cx))
        == Some(if step.Some? then LowerExpr(step.value, u, names) else CInt(1))
  {
    hide ReadTokens, LowerExpr, Printed, Prints;
    FieldIsRead("");
    if step.Some? { PrintedIsRead(step.value, u, names, cx); }
  }

  lemma ForTestIsRead(control: string, bound: Expr, u: Unit, names: Naming, cx: Context)
    requires Prints(bound, u, cx.Body?) && TypeOf(bound, u) == Some(TInt)
    ensures ReadTokens(ForTestTokens(control, Printed(bound, u, names, cx)))
        == Some(ForTest(control, LowerExpr(bound, u, names)))
  {
    hide IsUnary, IsExpr, ParseExpr, Tokens, LowerExpr, ForTestTokens, ForTest, Operand, Prints;
    NumbersAreUnary(bound, u, names, cx.Body?, "");
    ForTestIsExpr(control, Printed(bound, u, names, cx), LowerExpr(bound, u, names));
    WholeText(ForTestTokens(control, Printed(bound, u, names, cx)), ForTest(control, LowerExpr(bound, u, names)));
  }

  lemma ForSpells(s: Statement, u: Unit, names: Naming, cx: Context)
    requires s.For? && SupportedStatement(s, u, cx.Body?)
    requires Spells(BlockText(s.body, u, names, cx), LowerBlock(s.body, u, names, cx))
    ensures Spells(TextOf(s, u, names, cx), Lower(s, u, names, cx))
  {
    hide LowerExpr, LowerBlock, BlockText, Prints, Lines, Supported, StableBound, ReadTokens, Printed, StepText,
         ForTestTokens, ForTest, SupportedBlock;
    var c, body, lowered := names([s.control]), BlockText(s.body, u, names, cx), LowerBlock(s.body, u, names, cx);
    var step := if s.step.Some? then LowerExpr(s.step.value, u, names) else CInt(1);
    var first, test := LowerExpr(s.first, u, names), ForTest(c, LowerExpr(s.bound, u, names));
    StepIsRead(s.step, u, names, cx);
    PrintedIsRead(s.first, u, names, cx);
    ForTestIsRead(c, s.bound, u, names, cx);
    FieldIsRead(STEP);
    var d, l := LDecl(STEP, step), LFor(c, first, test, CLocal(STEP));
    SpellsBraced([LOpen, LDecl(STEP, StepText(s.step, u, names, cx)),
                  LFor(c, Printed(s.first, u, names, cx), ForTestTokens(c, Printed(s.bound, u, names, cx)),
                      [LocalName(STEP)])],
                 [LOpen, d, l], body, lowered, [LClose, LClose], [LClose, LClose]);
    hide IsTextOf, ReadLine;
    ForLines(c, first, test, step, lowered);
    hide LinesOf;
    SpellsOne(TextOf(s, u, names, cx), CBraces([CDecl(STEP, step), CFor(c, first, test, CLocal(STEP), lowered)]));
  }

  lemma ForLines(x: string, first: CExpr, test: CExpr, step: CExpr, body: seq<CStmt>)
    ensures var loop := CFor(x, first, test, CLocal(STEP), body);
      LinesOf(CBraces([CDecl(STEP, step), loop]))
      == [LOpen, LDecl(STEP, step), LFor(x, first, test, CLocal(STEP))] + Lines(body) + [LClose, LClose]
    ensures Shaped(body) ==> StatementShaped(CBraces([CDecl(STEP, step), CFor(x, first, test, CLocal(STEP), body)]))
  {
    var loop := CFor(x, first, test, CLocal(STEP), body);
    assert [CDecl(STEP, step), loop][1..] == [loop];
    OneStatement(loop);
    assert Lines([CDecl(STEP, step), loop]) == [LDecl(STEP, step)] + LinesOf(loop);
    assert forall c <- [CDecl(STEP, step), loop] :: c.CDecl? || c == loop;
  }

  // ----- IF and CASE -----

  lemma {:induction false} ElseSpells(otherwise: seq<Statement>, u: Unit, names: Naming, cx: Context)
    requires SupportedBlock(otherwise, u, cx.Body?) && SupportedInstances(u)
    ensures IsTextOf(ElseText(otherwise, u, names, cx), ElseLines(LowerElse(otherwise, u, names, cx)))
    ensures var no := LowerElse(otherwise, u, names, cx); no.Else? ==> Shaped(no.body)
    decreases u, otherwise, 1
  {
    hide SupportedBlock, SupportedInstances, BlockText, LowerBlock, Lines, Shaped;
    if otherwise == [] {
    } else {
      BlockSpells(otherwise, u, names, cx);
      SpellsBraced([LElse], [LElse], BlockText(otherwise, u, names, cx), LowerBlock(otherwise, u, names, cx),
          [LClose], [LClose]);
    }
  }

  // One arm and those after it.
  lemma ArmSpells(k: nat, test: seq<Token>, c: CExpr, body: seq<TextLine>, arms: seq<CArm>, more: seq<TextLine>)
    requires k < |arms| && arms[k].test == c && ReadTokens(test) == Some(c)
    requires Spells(body, arms[k].body) && IsTextOf(more, ArmLines(arms, k + 1))
    ensures IsTextOf(ArmOpening(k, test) + body + [LClose] + more, ArmLines(arms, k))
  {
    hide ReadTokens, Lines, Shaped;
    SpellsBraced(ArmOpening(k, test), ArmOpening(k, c), body, arms[k].body, [LClose], [LClose]);
    Appended(ArmOpening(k, test) + body + [LClose], ArmOpening(k, c) + Lines(arms[k].body) + [LClose], more,
        ArmLines(arms, k + 1));
  }

  lemma {:induction false} BranchesSpell(s: Statement, k: nat, u: Unit, names: Naming, cx: Context)
    requires s.If? && k <= |s.branches| && SupportedStatement(s, u, cx.Body?) && SupportedInstances(u)
    ensures var arms := LowerBranches(s.branches, u, names, cx);
      && IsTextOf(BranchText(s.branches, k, u, names, cx), ArmLines(arms, k))
      && forall i :: k <= i < |arms| ==> Shaped(arms[i].body)
    decreases u, s, |s.branches| - k
  {
    hide SupportedBlock, SupportedInstances, BlockText, LowerBlock, Printed, LowerExpr, Shaped, ReadTokens, Prints,
         HasMeaning, IsTextOf, ArmOpening, LowerBranches, ArmLines, Lines;
    var arms := LowerBranches(s.branches, u, names, cx);
    if k == |s.branches| {
      NothingLeft(arms);
    } else {
      var b := s.branches[k];
      assert b in s.branches;
      PrintedIsRead(b.condition, u, names, cx);
      BlockSpells(b.body, u, names, cx);
      BranchesSpell(s, k + 1, u, names, cx);
      ArmSpells(k, Printed(b.condition, u, names, cx), LowerExpr(b.condition, u, names),
          BlockText(b.body, u, names, cx),
                arms, BranchText(s.branches, k + 1, u, names, cx));
    }
  }

  lemma NothingLeft(arms: seq<CArm>)
    ensures IsTextOf([], ArmLines(arms, |arms|))
  {
  }

  // All arms and the rest.
  lemma AllArmsSpell(text: seq<TextLine>, arms: seq<CArm>, other: seq<TextLine>, no: CElse)
    requires arms != [] && IsTextOf(text, ArmLines(arms, 0)) && IsTextOf(other, ElseLines(no))
    requires (forall i :: 0 <= i < |arms| ==> Shaped(arms[i].body)) && (no.Else? ==> Shaped(no.body))
    ensures Spells(text + other, [CIf(arms, no)])
  {
    hide IsTextOf, ArmLines, ElseLines, Shaped;
    Appended(text, ArmLines(arms, 0), other, ElseLines(no));
    SpellsOne(text + other, CIf(arms, no));
  }

  lemma {:induction false} IfSpells(s: Statement, u: Unit, names: Naming, cx: Context)
    requires s.If? && SupportedStatement(s, u, cx.Body?) && SupportedInstances(u)
    ensures Spells(TextOf(s, u, names, cx), Lower(s, u, names, cx))
    decreases u, s, |s.branches| + 1
  {
    hide SupportedBlock, SupportedInstances, BranchText, ElseText, LowerBranches, LowerElse, Spells, IsTextOf, Shaped,
         ArmLines, ElseLines, SupportedAs;
    BranchesSpell(s, 0, u, names, cx);
    ElseSpells(s.otherwise, u, names, cx);
    AllArmsSpell(BranchText(s.branches, 0, u, names, cx), LowerBranches(s.branches, u, names, cx),
                 ElseText(s.otherwise, u, names, cx), LowerElse(s.otherwise, u, names, cx));
  }

  lemma LabelsAreRead(labels: seq<CaseLabel>, selector: seq<Token>, c: CExpr, u: Unit, names: Naming, inBlock: bool)
    requires labels != [] && (forall l <- labels :: SupportedLabel(l, u, inBlock)) && IsUnary(selector, c)
    ensures ReadTokens(JoinOr(LabelsTokens(labels, selector, u, names, inBlock)))
        == Some(AnyOf(LowerLabels(labels, c, u, names)))
  {
    forall l <- labels ensures LabelOk(l, u, inBlock) {
      hide Prints, Operand, TypeOf, Supported, IsUnary;
      match l
      case Single(e) => NumbersAreUnary(e, u, names, inBlock, "");
      case Range(low, high) =>
        NumbersAreUnary(low, u, names, inBlock, "");
        NumbersAreUnary(high, u, names, inBlock, "");
    }
    hide IsUnary, LabelOk, SupportedLabel, ParseExpr, LabelsTokens, LowerLabels, JoinOr, AnyOf;
    CaseTextIsTree(labels, selector, c, u, names, inBlock);
  }

  lemma {:induction false} CasesSpell(s: Statement, k: nat, selector: seq<Token>, c: CExpr, u: Unit, names: Naming,
      cx: Context)
    requires s.CaseOf? && k <= |s.cases| && SupportedStatement(s, u, cx.Body?) && SupportedInstances(u)
        && IsUnary(selector, c)
    ensures var arms := LowerCases(s.cases, c, u, names, cx);
      && IsTextOf(CaseText(s.cases, k, selector, u, names, cx), ArmLines(arms, k))
      && forall i :: k <= i < |arms| ==> Shaped(arms[i].body)
    decreases u, s, |s.cases| - k
  {
    hide SupportedBlock, SupportedInstances, BlockText, LowerBlock, SupportedLabel, Shaped, ReadTokens, SupportedAs,
         IsTextOf, ArmOpening, IsUnary, LabelsTokens, LowerLabels, JoinOr, AnyOf, LowerCases, ArmLines, Lines;
    var arms := LowerCases(s.cases, c, u, names, cx);
    if k == |s.cases| {
      NothingLeft(arms);
    } else {
      var b := s.cases[k];
      assert b in s.cases;
      LabelsAreRead(b.labels, selector, c, u, names, cx.Body?);
      BlockSpells(b.body, u, names, cx);
      CasesSpell(s, k + 1, selector, c, u, names, cx);
      ArmSpells(k, JoinOr(LabelsTokens(b.labels, selector, u, names, cx.Body?)),
          AnyOf(LowerLabels(b.labels, c, u, names)),
                BlockText(b.body, u, names, cx), arms, CaseText(s.cases, k + 1, selector, u, names, cx));
    }
  }

  lemma {:induction false} SelectionSpells(s: Statement, u: Unit, names: Naming, cx: Context)
    requires s.CaseOf? && SupportedStatement(s, u, cx.Body?) && SupportedInstances(u)
    ensures Spells(TextOf(s, u, names, cx), Lower(s, u, names, cx))
    decreases u, s, |s.cases| + 1
  {
    hide SupportedBlock, SupportedInstances, CaseText, ElseText, LowerCases, LowerElse, Spells, IsTextOf, Shaped,
         ArmLines, ElseLines, IsUnary, Tokens, LowerExpr, Prints, Supported, TypeOf, SupportedLabel, ReadTokens,
         Operand;
    var text, sel := Printed(s.selector, u, names, cx), LowerExpr(s.selector, u, names);
    NumbersAreUnary(s.selector, u, names, cx.Body?, SELECTOR);
    ElseSpells(s.otherwise, u, names, cx);
    var t, c := if cx.Program? then text else [LocalName(SELECTOR)], if cx.Program? then sel else CLocal(SELECTOR);
    CasesSpell(s, 0, t, c, u, names, cx);
    var arms, no := LowerCases(s.cases, c, u, names, cx), LowerElse(s.otherwise, u, names, cx);
    var all := CaseText(s.cases, 0, t, u, names, cx) + ElseText(s.otherwise, u, names, cx);
    AllArmsSpell(CaseText(s.cases, 0, t, u, names, cx), arms, ElseText(s.otherwise, u, names, cx), no);
    if cx.Body? {
      PrintedIsRead(s.selector, u, names, cx);
      SpellsLine(LDecl(SELECTOR, text), CDecl(SELECTOR, sel));
      SpellsBoth([LDecl(SELECTOR, text)], [CDecl(SELECTOR, sel)], all, [CIf(arms, no)]);
      assert [CDecl(SELECTOR, sel)] + [CIf(arms, no)] == [CDecl(SELECTOR, sel), CIf(arms, no)];
    }
  }

  // ----- calls -----

  lemma {:induction false} InputsSpell(args: seq<Argument>, position: nat, block: Unit, instance: Name, u: Unit,
      names: Naming, cx: Context)
    requires SupportedArguments(args, position, block, u, cx.Body?)
    ensures Spells(InputText(args, position, block, instance, u, names, cx),
        LowerInputs(args, position, block, instance, u, names))
    decreases |args|
  {
    hide Spells, Printed, LowerExpr, Prints, ReadTokens, Supported, TypeOf;
    if args == [] {
      SpellsNothing();
    } else {
      var t := InputTarget(InputFields(block.vars), args[0], position);
      var next := NextPosition(args[0], position);
      InputsSpell(args[1..], next, block, instance, u, names, cx);
      if t.Some? {
        var x, e := names([instance, t.value.name]), args[0].expr;
        PrintedIsRead(e, u, names, cx);
        SpellsLine(LAssign(x, Printed(e, u, names, cx)), CAssign(x, LowerExpr(e, u, names)));
        SpellsBoth([LAssign(x, Printed(e, u, names, cx))], [CAssign(x, LowerExpr(e, u, names))],
                   InputText(args[1..], next, block, instance, u, names, cx),
                       LowerInputs(args[1..], next, block, instance, u, names));
      } else {
        SpellsNothing();
        SpellsBoth([], [], InputText(args[1..], next, block, instance, u, names, cx),
                   LowerInputs(args[1..], next, block, instance, u, names));
      }
    }
  }

  lemma CopySpells(x: string, y: string)
    ensures Spells([LAssign(x, [FieldName(y)])], [CAssign(x, CField(y))])
  {
    hide ReadTokens;
    FieldIsRead(y);
    SpellsLine(LAssign(x, [FieldName(y)]), CAssign(x, CField(y)));
  }

  lemma {:induction false} InOutsSpell(args: seq<Argument>, position: nat, block: Unit, instance: Name, names: Naming)
    ensures Spells(InOutText(args, position, block, instance, names),
        LowerInOuts(args, position, block, instance, names))
    decreases |args|
  {
    hide Spells;
    if args == [] {
      SpellsNothing();
    } else {
      var t := InputTarget(InputFields(block.vars), args[0], position);
      var next := NextPosition(args[0], position);
      var text, rest := InOutText(args[1..], next, block, instance, names),
          LowerInOuts(args[1..], next, block, instance, names);
      InOutsSpell(args[1..], next, block, instance, names);
      if t.Some? && t.value.kind.VarInOut? && args[0].expr.Variable? {
        var x, y := names(args[0].expr.path), names([instance, t.value.name]);
        CopySpells(x, y);
        SpellsBoth([LAssign(x, [FieldName(y)])], [CAssign(x, CField(y))], text, rest);
      } else {
        SpellsNothing();
        SpellsBoth([], [], text, rest);
      }
    }
  }

  lemma {:induction false} OutputsSpell(args: seq<Argument>, instance: Name, names: Naming)
    ensures Spells(OutputText(args, instance, names), LowerOutputs(args, instance, names))
    decreases |args|
  {
    hide Spells;
    if args == [] {
      SpellsNothing();
    } else {
      var text, rest := OutputText(args[1..], instance, names), LowerOutputs(args[1..], instance, names);
      OutputsSpell(args[1..], instance, names);
      if args[0].Output? {
        var x, y := names(args[0].target), names([instance, args[0].field]);
        CopySpells(x, y);
        SpellsBoth([LAssign(x, [FieldName(y)])], [CAssign(x, CField(y))], text, rest);
      } else {
        SpellsNothing();
        SpellsBoth([], [], text, rest);
      }
    }
  }

  lemma OnceSpells(text: seq<TextLine>, body: seq<CStmt>, target: string)
    requires Spells(text, body)
    ensures Spells([LDo] + text + [LLabel(target), LOnceEnd], [COnce(body, target)])
  {
    hide Lines;
    SpellsBraced([LDo], [LDo], text, body, [LLabel(target), LOnceEnd], [LLabel(target), LOnceEnd]);
    hide IsTextOf, Shaped;
    SpellsOne([LDo] + text + [LLabel(target), LOnceEnd], COnce(body, target));
  }

  lemma {:induction false} CallSpells(s: Statement, u: Unit, names: Naming, cx: Context)
    requires s.FbCall? && SupportedStatement(s, u, cx.Body?) && SupportedInstances(u)
    ensures Spells(TextOf(s, u, names, cx), Lower(s, u, names, cx))
    decreases u, s, 0
  {
    hide Spells, BlockText, LowerBlock, InputText, LowerInputs, InOutText, LowerInOuts, OutputText, LowerOutputs,
         SupportedBlock, SupportedArguments;
    var instance, args := s.instance, s.arguments;
    var block, inner, target := BlockOf(u, instance), Under(names, instance), ReturnLabel(names, instance);
    assert SupportedInstances(block) && SupportedBlock(block.body, block, true);
    InputsSpell(args, 0, block, instance, u, names, cx);
    BlockSpells(block.body, block, inner, Body(target));
    OnceSpells(BlockText(block.body, block, inner, Body(target)), LowerBlock(block.body, block, inner, Body(target)),
        target);
    InOutsSpell(args, 0, block, instance, names);
    OutputsSpell(args, instance, names);
    var a, x := InputText(args, 0, block, instance, u, names, cx), LowerInputs(args, 0, block, instance, u, names);
    var b := [LDo] + BlockText(block.body, block, inner, Body(target)) + [LLabel(target), LOnceEnd];
    var y := [COnce(LowerBlock(block.body, block, inner, Body(target)), target)];
    SpellsBoth(a, x, b, y);
    SpellsBoth(a + b, x + y, InOutText(args, 0, block, instance, names), LowerInOuts(args, 0, block, instance, names));
    SpellsBoth(a + b + InOutText(args, 0, block, instance, names), x + y + LowerInOuts(args, 0, block, instance, names),
               OutputText(args, instance, names), LowerOutputs(args, instance, names));
  }

  // ----- where `break` stands -----

  // Every `break` has a loop, or the `do` around a body, to leave.
  predicate BreaksInLoops(cs: seq<CStmt>) {
    forall c <- cs ::
      match c
      case CIf(arms, no) => (forall a <- arms :: BreaksInLoops(a.body)) && (no.Else? ==> BreaksInLoops(no.body))
      case CBraces(body) => BreaksInLoops(body)
      case CBreak => false
      case _ => true
  }

  lemma {:induction false} BreaksStay(ss: seq<Statement>, u: Unit, names: Naming, cx: Context)
    ensures BreaksInLoops(LowerBlock(ss, u, names, cx)) <==> !BlockLeaves(ss, Exited)
    decreases u, ss, 0
  {
    hide Lower, Leaves;
    if ss == [] {
    } else {
      BreakStays(ss[0], u, names, cx);
      BreaksStay(ss[1..], u, names, cx);
      var a, b := Lower(ss[0], u, names, cx), LowerBlock(ss[1..], u, names, cx);
      BreaksInBoth(a, b);
      assert BlockLeaves(ss, Exited) <==> Leaves(ss[0], Exited) || BlockLeaves(ss[1..], Exited) by {
        assert ss == [ss[0]] + ss[1..];
      }
    }
  }

  lemma BreaksInBoth(a: seq<CStmt>, b: seq<CStmt>)
    ensures BreaksInLoops(a + b) <==> BreaksInLoops(a) && BreaksInLoops(b)
  {
    assert forall c :: c in a + b <==> c in a || c in b;
  }

  lemma BreaksInIf(arms: seq<CArm>, no: CElse)
    ensures BreaksInLoops([CIf(arms, no)])
            <==> (forall k :: 0 <= k < |arms| ==> BreaksInLoops(arms[k].body)) && (no.Else? ==> BreaksInLoops(no.body))
  {
    assert forall c <- [CIf(arms, no)] :: c == CIf(arms, no);
    assert CIf(arms, no) in [CIf(arms, no)];
  }

  lemma BreaksAfter(c: CStmt, d: CStmt)
    requires c.CDecl?
    ensures BreaksInLoops([c, d]) <==> BreaksInLoops([d])
  {
    assert [c, d] == [c] + [d];
    BreaksInBoth([c], [d]);
  }

  lemma {:induction false} BreakStays(s: Statement, u: Unit, names: Naming, cx: Context)
    ensures BreaksInLoops(Lower(s, u, names, cx)) <==> !Leaves(s, Exited)
    decreases u, s
  {
    match s
    case If(branches, otherwise) =>
      var arms, no := LowerBranches(branches, u, names, cx), LowerElse(otherwise, u, names, cx);
      hide BreaksInLoops, BlockLeaves;
      forall k | 0 <= k < |branches| ensures BreaksInLoops(arms[k].body) <==> !BlockLeaves(branches[k].body, Exited) {
        BreaksStay(branches[k].body, u, names, cx);
      }
      BreaksStay(otherwise, u, names, cx);
      NothingLeaves();
      BreaksInIf(arms, no);
    case CaseOf(selector, cases, otherwise) =>
      var sel := if cx.Program? then LowerExpr(selector, u, names) else CLocal(SELECTOR);
      var arms, no := LowerCases(cases, sel, u, names, cx), LowerElse(otherwise, u, names, cx);
      hide BreaksInLoops, BlockLeaves;
      forall k | 0 <= k < |cases| ensures BreaksInLoops(arms[k].body) <==> !BlockLeaves(cases[k].body, Exited) {
        BreaksStay(cases[k].body, u, names, cx);
      }
      BreaksStay(otherwise, u, names, cx);
      NothingLeaves();
      BreaksInIf(arms, no);
      BreaksAfter(CDecl(SELECTOR, LowerExpr(selector, u, names)), CIf(arms, no));
    case FbCall(_, _) => CallHasNoBreak(s, u, names, cx);
    case For(_, _, _, _, _) => ForHasNoBreak(s, u, names, cx);
    case Exit => assert CBreak in [CBreak];
    case _ =>
  }

  lemma NothingLeaves()
    ensures !BlockLeaves([], Exited) && BreaksInLoops([])
  {
  }

  lemma ForHasNoBreak(s: Statement, u: Unit, names: Naming, cx: Context)
    requires s.For?
    ensures BreaksInLoops(Lower(s, u, names, cx))
  {
    hide LowerBlock, LowerExpr, ForTest;
  }

  lemma CallHasNoBreak(s: Statement, u: Unit, names: Naming, cx: Context)
    requires s.FbCall?
    ensures BreaksInLoops(Lower(s, u, names, cx))
  {
    hide LowerBlock;
    if HasInstance(u, s.instance) {
      var block, target := BlockOf(u, s.instance), ReturnLabel(names, s.instance);
      var a, c := LowerInputs(s.arguments, 0, block, s.instance, u, names),
          LowerInOuts(s.arguments, 0, block, s.instance, names);
      var b := [COnce(LowerBlock(block.body, block, Under(names, s.instance), Body(target)), target)];
      CopiesHaveNoBreak(s.arguments, 0, block, s.instance, u, names);
      BreaksInBoth(a, b);
      BreaksInBoth(a + b, c);
      BreaksInBoth(a + b + c, LowerOutputs(s.arguments, s.instance, names));
    }
  }

  lemma {:induction false} CopiesHaveNoBreak(args: seq<Argument>, position: nat, block: Unit, instance: Name, u: Unit,
      names: Naming)
    ensures BreaksInLoops(LowerInputs(args, position, block, instance, u, names))
    ensures BreaksInLoops(LowerInOuts(args, position, block, instance, names))
    ensures BreaksInLoops(LowerOutputs(args, instance, names))
    decreases |args|
  {
    if args == [] {
    } else {
      CopiesHaveNoBreak(args[1..], NextPosition(args[0], position), block, instance, u, names);
    }
  }

  // ----- the theorems -----

  // C reads the lowered block from the emitted text, whole.
  lemma TextIsBlock(ss: seq<Statement>, u: Unit, names: Naming, cx: Context)
    requires SupportedBlock(ss, u, cx.Body?) && SupportedInstances(u)
    ensures ReadText(BlockText(ss, u, names, cx)) == Some(LowerBlock(ss, u, names, cx))
  {
    hide SupportedBlock, SupportedInstances, BlockText, LowerBlock, IsTextOf, Shaped, ReadEach, ReadBlock, Lines;
    BlockSpells(ss, u, names, cx);
    ReadEachOf(BlockText(ss, u, names, cx), Lines(LowerBlock(ss, u, names, cx)));
    LinesAreRead(LowerBlock(ss, u, names, cx));
  }

  // What C reads from the text of an expression has the expression's value.
  lemma ExpressionTextMeans(e: Expr, u: Unit, f: Frame, s: Store, names: Naming, cx: Context, locals: Locals)
    requires Represents(s, u, f, names) && TypeOf(e, u).Some? && Supported(e, u) && Prints(e, u, cx.Body?)
    requires Eval(e, f).Some?
    ensures var c := ReadTokens(Printed(e, u, names, cx));
      c.Some? && EvalC(c.value, s, locals) == Some(Num(Eval(e, f).value))
  {
    hide Represents, TypeOf, Supported, Prints, Eval, EvalC, ReadTokens, Printed, LowerExpr;
    PrintedIsRead(e, u, names, cx);
    ExpressionMeans(e, u, f, s, names, locals);
  }

  // What C reads from the text of a block does what the block does.
  lemma BlockTextMeans(ss: seq<Statement>, u: Unit, names: Naming, cx: Context, f: Frame, s: Store, locals: Locals,
      fuel: nat)
    requires Ready(u, f, s, names) && SupportedBlock(ss, u, cx.Body?)
    ensures var c := ReadText(BlockText(ss, u, names, cx));
      c.Some? && Simulates(ExecBlock(ss, u, f, fuel), ExecCBlock(c.value, s, locals, fuel), u, names, cx, s)
  {
    hide Represents, Distinct, SupportedInstances, SupportedBlock, ReadText, BlockText, LowerBlock, Simulates,
         ExecBlock, ExecCBlock;
    TextIsBlock(ss, u, names, cx);
    BlockMeans(ss, u, names, cx, f, s, locals, fuel);
  }

  // A whole program on its flattened field names: one scan of what C reads from
  // the emitted text is one run of the program, and no `break` is outside a loop.
  lemma ProgramMeans(u: Unit, f: Frame, s: Store, locals: Locals, fuel: nat)
    requires FieldNames.FieldsDistinct(u, FieldNames.JoinedParts) && SupportedProgram(u)
    requires Represents(s, u, f, FieldNames.JoinedParts)
    ensures var c := ReadText(BlockText(u.body, u, FieldNames.JoinedParts, Program));
      && c.Some? && BreaksInLoops(c.value)
      && Simulates(ExecBlock(u.body, u, f, fuel), ExecCBlock(c.value, s, locals, fuel), u, FieldNames.JoinedParts,
          Program, s)
  {
    hide Represents, SupportedInstances, SupportedBlock, ReadText, BlockText, LowerBlock, Simulates, ExecBlock,
         ExecCBlock, BlockLeaves, BreaksInLoops, FieldNames.FieldsDistinct, Distinct;
    FieldNames.DistinctIsDecided(u, FieldNames.JoinedParts);
    TextIsBlock(u.body, u, FieldNames.JoinedParts, Program);
    BlockMeans(u.body, u, FieldNames.JoinedParts, Program, f, s, locals, fuel);
    BreaksStay(u.body, u, FieldNames.JoinedParts, Program);
  }

  lemma MisreadValue(p: CExpr, q: CExpr, r: CExpr, x: bool, y: bool, z: bool, s: Store, locals: Locals)
    requires EvalC(p, s, locals) == Some(Bit(x)) && EvalC(q, s, locals) == Some(Bit(y))
    requires r.CField? && r.name in s && s[r.name] == VBool(z)
    ensures EvalC(CBin(AndAnd, p, CBin(Arithmetic(Eq), q, r)), s, locals) == Some(Bit(x && y == z))
  {
    assert EvalC(CBin(Arithmetic(Eq), q, r), s, locals) == Some(Bit(Bit(y) == Bit(z)));
  }

  lemma ChainOperandValue(f: Frame, a: Path, b: Path, c: Path, d: Path)
    requires a in f && b in f && c in f && d in f
    requires f[a].VInt? && f[b].VInt? && f[c].VInt? && f[d].VBool?
    ensures Eval(Binary(Eq, Call(Gt, [Variable(a), Variable(b), Variable(c)]), Variable(d)), f)
            == Some(VBool((f[a].n > f[b].n && f[b].n > f[c].n) == f[d].b))
  {
    hide EvalAll, Chained;
    var args, vs := [Variable(a), Variable(b), Variable(c)], [f[a], f[b], f[c]];
    forall k | 0 <= k < 3 ensures Eval(args[k], f) == Some(vs[k]) { }
    assert EvalAll(args, f) == Some(vs) by {
      assert EvalAll(args, f).Some?;
      assert EvalAll(args, f).value == vs;
    }
    ThreeInOrder(f[a], f[b], f[c]);
    assert Eval(Call(Gt, args), f) == Some(VBool(Chained(Gt, vs)));
  }

  lemma ThreeInOrder(x: Value, y: Value, z: Value)
    ensures Chained(Gt, [x, y, z]) <==> Num(x) > Num(y) && Num(y) > Num(z)
  {
    var vs := [x, y, z];
    if Chained(Gt, vs) { assert Compare(Gt, Num(vs[0]), Num(vs[0 + 1])) && Compare(Gt, Num(vs[1]), Num(vs[1 + 1])); }
  }

  lemma CompareFields(op: BinaryOp, a: Path, b: Path, f: Frame, s: Store, names: Naming, locals: Locals)
    requires IsCompare(op) && Holds(s, f, names) && a in f && b in f
    ensures EvalC(CBin(Arithmetic(op), CField(names(a)), CField(names(b))), s, locals)
        == Some(Bit(Compare(op, Num(f[a]), Num(f[b]))))
  {
  }

  // GT(a, b, c) = d, read as (a > b) && ((b > c) == d), has the value it should
  // have exactly when a > b or d holds.
  lemma ChainOperandDiffers(u: Unit, f: Frame, s: Store, names: Naming, locals: Locals, a: Path, b: Path, c: Path,
      d: Path)
    requires Represents(s, u, f, names) && TypeAt(u, d) == Some(TBool)
    requires TypeAt(u, a) == Some(TInt) && TypeAt(u, b) == Some(TInt) && TypeAt(u, c) == Some(TInt)
    ensures var e := Binary(Eq, Call(Gt, [Variable(a), Variable(b), Variable(c)]), Variable(d));
      var tree := ReadTokens(Tokens(e, u, names, false));
      && {a, b, c, d} <= f.Keys && f[a].VInt? && f[b].VInt? && f[d].VBool?
      && tree.Some? && Eval(e, f).Some?
      && (EvalC(tree.value, s, locals) == Some(Num(Eval(e, f).value)) <==> f[a].n > f[b].n || f[d].b)
  {
    hide Tokens, ParseExpr, EvalAll, Chained, EvalC, Eval;
    ChainOperandMisread(u, names, a, b, c, d);
    assert a in f && b in f && c in f && d in f;
    ChainOperandValue(f, a, b, c, d);
    var p, q := CBin(Arithmetic(Gt), CField(names(a)), CField(names(b))),
        CBin(Arithmetic(Gt), CField(names(b)), CField(names(c)));
    CompareFields(Gt, a, b, f, s, names, locals);
    CompareFields(Gt, b, c, f, s, names, locals);
    MisreadValue(p, q, CField(names(d)), f[a].n > f[b].n, f[b].n > f[c].n, f[d].b, s, locals);
  }
}
