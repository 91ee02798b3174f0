/**
 * The statement emitter: it walks the statements and appends lines of C to its
 * buffer. The lines are the text of the statements.
 */
module StatementEmitter {
  import opened Wrappers
  import opened Values
  import opened StructuredText
  import opened CCode
  import opened Lowering
  import opened CParser
  import opened Printer
  import opened CLines
  import opened StatementText

  lemma Between<T>(done: seq<T>, a: seq<T>, b: seq<T>, c: seq<T>)
    ensures ((done + a) + b) + c == done + (a + b + c)
  {
  }

  lemma Four<T>(done: seq<T>, a: seq<T>, b: seq<T>, c: seq<T>, d: seq<T>)
    ensures (((done + a) + b) + c) + d == done + (a + b + c + d)
  {
  }

  lemma NextStatement(ss: seq<Statement>, i: nat, u: Unit, names: Naming, cx: Context)
    requires i < |ss|
    ensures BlockText(ss[i..], u, names, cx) == TextOf(ss[i], u, names, cx) + BlockText(ss[i + 1..], u, names, cx)
  {
    hide TextOf;
    assert ss[i..][0] == ss[i] && ss[i..][1..] == ss[i + 1..];
  }

  class CEmitter {
    var lines: seq<TextLine>

    constructor ()
      ensures lines == []
    {
      lines := [];
    }

    method Emit(l: TextLine)
      modifies this
      ensures lines == old(lines) + [l]
    {
      lines := lines + [l];
    }

    // `emit_statement` in a program, `emit_user_fb_statement` in a body.
    method EmitStatement(s: Statement, u: Unit, names: Naming, cx: Context)
      modifies this
      ensures lines == old(lines) + TextOf(s, u, names, cx)
      decreases u, s
    {
      hide BlockText, Printed, BranchText, ElseText;
      ghost var start := lines;
      match s
      case Empty =>
        if cx.Program? { Emit(LComment); }
      case Assignment(target, value) => Emit(LAssign(names(target), Printed(value, u, names, cx)));
      case If(branches, otherwise) =>
        EmitBranches(branches, u, names, cx);
        EmitElse(otherwise, u, names, cx);
        Onward(start, BranchText(branches, 0, u, names, cx), ElseText(otherwise, u, names, cx));
      case CaseOf(selector, cases, otherwise) => EmitCase(s, u, names, cx);
      case For(_, _, _, _, _) => EmitFor(s, u, names, cx);
      case While(condition, body) =>
        Emit(LWhile(Printed(condition, u, names, cx)));
        EmitBlock(body, u, names, cx);
        Emit(LClose);
        Between(start, [LWhile(Printed(condition, u, names, cx))], BlockText(body, u, names, cx), [LClose]);
      case Repeat(body, until) =>
        var test := UntilTokens(Printed(until, u, names, cx));
        Emit(LDo);
        EmitBlock(body, u, names, cx);
        Emit(LDoEnd(test));
        Between(start, [LDo], BlockText(body, u, names, cx), [LDoEnd(test)]);
      case Exit => Emit(LBreak);
      case Return => Emit(if cx.Program? then LReturn else LGoto(cx.target));
      case FbCall(instance, arguments) =>
        if HasInstance(u, instance) { EmitFbCall(s, u, names, cx); } else { Emit(LComment); }
    }

    method EmitBlock(ss: seq<Statement>, u: Unit, names: Naming, cx: Context)
      modifies this
      ensures lines == old(lines) + BlockText(ss, u, names, cx)
      decreases u, ss, 0
    {
      ghost var start, all := lines, BlockText(ss, u, names, cx);
      assert ss[0..] == ss;
      for i := 0 to |ss|
        invariant lines + BlockText(ss[i..], u, names, cx) == start + all
      {
        hide TextOf, BlockText;
        NextStatement(ss, i, u, names, cx);
        Onward(lines, TextOf(ss[i], u, names, cx), BlockText(ss[i + 1..], u, names, cx));
        EmitStatement(ss[i], u, names, cx);
      }
      assert BlockText(ss[|ss|..], u, names, cx) == [];
    }

    method EmitBranches(branches: seq<Branch>, u: Unit, names: Naming, cx: Context)
      modifies this
      ensures lines == old(lines) + BranchText(branches, 0, u, names, cx)
      decreases u, branches
    {
      hide BlockText, Printed;
      ghost var start, all := lines, BranchText(branches, 0, u, names, cx);
      for index := 0 to |branches|
        invariant lines + BranchText(branches, index, u, names, cx) == start + all
      {
        var condition := Printed(branches[index].condition, u, names, cx);
        Four(lines, ArmOpening(index, condition), BlockText(branches[index].body, u, names, cx), [LClose],
             BranchText(branches, index + 1, u, names, cx));
        if index == 0 {
          Emit(LIf(condition));
        } else {
          Emit(LElseIf(condition));
        }
        EmitBlock(branches[index].body, u, names, cx);
        Emit(LClose);
      }
    }

    method EmitElse(otherwise: seq<Statement>, u: Unit, names: Naming, cx: Context)
      modifies this
      ensures lines == old(lines) + ElseText(otherwise, u, names, cx)
      decreases u, otherwise, 1
    {
      hide BlockText;
      if otherwise != [] {
        ghost var start := lines;
        Emit(LElse);
        EmitBlock(otherwise, u, names, cx);
        Emit(LClose);
        Between(start, [LElse], BlockText(otherwise, u, names, cx), [LClose]);
      }
    }

    // `emit_case_statement`, and `emit_user_fb_case_statement` with its local.
    method EmitCase(s: Statement, u: Unit, names: Naming, cx: Context)
      requires s.CaseOf?
      modifies this
      ensures lines == old(lines) + TextOf(s, u, names, cx)
      decreases u, s, 0
    {
      hide BlockText, Printed, ElseText, LabelsTokens, JoinOr;
      ghost var before := lines;
      var selector := Printed(s.selector, u, names, cx);
      if cx.Body? {
        Emit(LDecl(SELECTOR, selector));
        selector := [LocalName(SELECTOR)];
      }
      ghost var start, all := lines, CaseText(s.cases, 0, selector, u, names, cx);
      for index := 0 to |s.cases|
        invariant lines + CaseText(s.cases, index, selector, u, names, cx) == start + all
      {
        var condition := JoinLabels(s.cases[index].labels, selector, u, names, cx.Body?);
        Four(lines, ArmOpening(index, condition), BlockText(s.cases[index].body, u, names, cx), [LClose],
             CaseText(s.cases, index + 1, selector, u, names, cx));
        if index == 0 {
          Emit(LIf(condition));
        } else {
          Emit(LElseIf(condition));
        }
        EmitBlock(s.cases[index].body, u, names, cx);
        Emit(LClose);
      }
      EmitElse(s.otherwise, u, names, cx);
      Onward(start, all, ElseText(s.otherwise, u, names, cx));
      if cx.Body? {
        Onward(before, [LDecl(SELECTOR, Printed(s.selector, u, names, cx))], all + ElseText(s.otherwise, u, names, cx));
      }
    }

    method EmitFor(s: Statement, u: Unit, names: Naming, cx: Context)
      requires s.For?
      modifies this
      ensures lines == old(lines) + TextOf(s, u, names, cx)
      decreases u, s, 0
    {
      hide BlockText, Printed, StepText, ForTestTokens;
      ghost var start := lines;
      var control := names([s.control]);
      var step := StepText(s.step, u, names, cx);
      var first, test := Printed(s.first, u, names, cx), ForTestTokens(control, Printed(s.bound, u, names, cx));
      Emit(LOpen);
      Emit(LDecl(STEP, step));
      Emit(LFor(control, first, test, [LocalName(STEP)]));
      assert lines == start + [LOpen, LDecl(STEP, step), LFor(control, first, test, [LocalName(STEP)])];
      EmitBlock(s.body, u, names, cx);
      ghost var done := lines;
      Emit(LClose);
      Emit(LClose);
      assert lines == done + [LClose, LClose];
      Between(start, [LOpen, LDecl(STEP, step), LFor(control, first, test, [LocalName(STEP)])],
          BlockText(s.body, u, names, cx),
              [LClose, LClose]);
    }

    // `emit_user_fb_call` and `emit_nested_user_fb_call`.
    method EmitFbCall(s: Statement, u: Unit, names: Naming, cx: Context)
      requires s.FbCall? && HasInstance(u, s.instance)
      modifies this
      ensures lines == old(lines) + TextOf(s, u, names, cx)
      decreases u, s, 0
    {
      hide BlockText, InputText, InOutText, OutputText;
      ghost var start := lines;
      var instance, args := s.instance, s.arguments;
      var block, target := BlockOf(u, instance), ReturnLabel(names, instance);
      ghost var body := BlockText(block.body, block, Under(names, instance), Body(target));
      EmitInputs(args, block, instance, u, names, cx);
      ghost var mid := lines;
      Emit(LDo);
      EmitBlock(block.body, block, Under(names, instance), Body(target));
      ghost var done := lines;
      Emit(LLabel(target));
      Emit(LOnceEnd);
      assert lines == done + [LLabel(target), LOnceEnd];
      Between(mid, [LDo], body, [LLabel(target), LOnceEnd]);
      EmitInOuts(args, block, instance, names);
      EmitOutputs(args, instance, names);
      Four(start, InputText(args, 0, block, instance, u, names, cx), [LDo] + body + [LLabel(target), LOnceEnd],
           InOutText(args, 0, block, instance, names), OutputText(args, instance, names));
    }

    method EmitInputs(args: seq<Argument>, block: Unit, instance: Name, u: Unit, names: Naming, cx: Context)
      modifies this
      ensures lines == old(lines) + InputText(args, 0, block, instance, u, names, cx)
    {
      hide Printed;
      ghost var start, all := lines, InputText(args, 0, block, instance, u, names, cx);
      assert args[0..] == args;
      var positionalIndex := 0;
      for i := 0 to |args|
        invariant lines + InputText(args[i..], positionalIndex, block, instance, u, names, cx) == start + all
      {
        ghost var rest := InputText(args[i + 1..], NextPosition(args[i], positionalIndex), block, instance, u, names,
            cx);
        assert args[i..][1..] == args[i + 1..];
        var t := InputTarget(InputFields(block.vars), args[i], positionalIndex);
        if t.Some? {
          var line := LAssign(names([instance, t.value.name]), Printed(args[i].expr, u, names, cx));
          Onward(lines, [line], rest);
          Emit(line);
        } else {
          assert [] + rest == rest;
        }
        positionalIndex := NextPosition(args[i], positionalIndex);
      }
      assert args[|args|..] == [];
    }

    method EmitInOuts(args: seq<Argument>, block: Unit, instance: Name, names: Naming)
      modifies this
      ensures lines == old(lines) + InOutText(args, 0, block, instance, names)
    {
      ghost var start, all := lines, InOutText(args, 0, block, instance, names);
      assert args[0..] == args;
      var positionalIndex := 0;
      for i := 0 to |args|
        invariant lines + InOutText(args[i..], positionalIndex, block, instance, names) == start + all
      {
        ghost var rest := InOutText(args[i + 1..], NextPosition(args[i], positionalIndex), block, instance, names);
        assert args[i..][1..] == args[i + 1..];
        var t := InputTarget(InputFields(block.vars), args[i], positionalIndex);
        if t.Some? && t.value.kind.VarInOut? && args[i].expr.Variable? {
          var line := LAssign(names(args[i].expr.path), [FieldName(names([instance, t.value.name]))]);
          Onward(lines, [line], rest);
          Emit(line);
        } else {
          assert [] + rest == rest;
        }
        positionalIndex := NextPosition(args[i], positionalIndex);
      }
      assert args[|args|..] == [];
    }

    method EmitOutputs(args: seq<Argument>, instance: Name, names: Naming)
      modifies this
      ensures lines == old(lines) + OutputText(args, instance, names)
    {
      ghost var start, all := lines, OutputText(args, instance, names);
      assert args[0..] == args;
      for i := 0 to |args|
        invariant lines + OutputText(args[i..], instance, names) == start + all
      {
        ghost var rest := OutputText(args[i + 1..], instance, names);
        assert args[i..][1..] == args[i + 1..];
        if args[i].Output? {
          var line := LAssign(names(args[i].target), [FieldName(names([instance, args[i].field]))]);
          Onward(lines, [line], rest);
          Emit(line);
        } else {
          assert [] + rest == rest;
        }
      }
      assert args[|args|..] == [];
    }
  }

  lemma {:induction false} JoinOrLast(tests: seq<seq<Token>>, next: seq<Token>)
    requires tests != []
    ensures JoinOr(tests + [next]) == JoinOr(tests) + [OrOrT] + next
    decreases |tests|
  {
    assert (tests + [next])[1..] == tests[1..] + [next];
    if |tests| == 1 {
      assert tests[1..] + [next] == [next];
    } else {
      JoinOrLast(tests[1..], next);
      Onward(tests[0] + [OrOrT], JoinOr(tests[1..]), [OrOrT]);
      Onward(tests[0] + [OrOrT], JoinOr(tests[1..]) + [OrOrT], next);
    }
  }

  // The labels' tests joined by ` || `.
  method JoinLabels(labels: seq<CaseLabel>, selector: seq<Token>, u: Unit, names: Naming, inBlock: bool)
    returns (test: seq<Token>)
    ensures test == JoinOr(LabelsTokens(labels, selector, u, names, inBlock))
  {
    hide LabelTokens;
    test := [];
    ghost var tests := LabelsTokens(labels, selector, u, names, inBlock);
    for i := 0 to |labels|
      invariant test == JoinOr(tests[..i])
    {
      assert tests[..i + 1] == tests[..i] + [tests[i]];
      var next := LabelTokens(labels[i], selector, u, names, inBlock);
      if i == 0 {
        assert tests[..1] == [next];
        test := next;
      } else {
        JoinOrLast(tests[..i], next);
        test := test + [OrOrT] + next;
      }
    }
    assert tests[..|labels|] == tests;
  }
}
