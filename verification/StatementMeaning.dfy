/**
 * The emitted C does what the Structured Text program does: from a store that
 * holds the unit's frame, it ends in a store that holds the frame Structured
 * Text ends in, with the same outcome, and changes no other field. Where
 * Structured Text runs on, so does the C.
 */
module StatementMeaning {
  import opened Wrappers
  import opened Values
  import opened StructuredText
  import opened CCode
  import opened Lowering
  import opened ExpressionMeaning
  import opened StoreFrames
  import opened Untouched
  import opened ForControl
  import opened InlinedCalls

  // The C run does what the Structured Text run does, unless that one faults.
  ghost predicate Simulates(r: Run, c: CRun, u: Unit, names: Naming, cx: Context, s: Store) {
    match r
    case Fault => true
    case OutOfFuel => c.COutOfFuel?
    case Done(f, o) =>
      && c.CDone? && c.outcome == LowerOutcome(o, cx)
      && Represents(c.store, u, f, names) && Kept(s, c.store, FieldsOf(u, names))
  }

  ghost predicate Ready(u: Unit, f: Frame, s: Store, names: Naming) {
    Represents(s, u, f, names) && Distinct(u, names) && SupportedInstances(u)
  }

  lemma OnwardSimulates(r: Run, c: CRun, u: Unit, names: Naming, cx: Context, s: Store, t: Store)
    requires Kept(s, t, FieldsOf(u, names)) && Simulates(r, c, u, names, cx, t)
    ensures Simulates(r, c, u, names, cx, s)
  {
  }

  // ----- the theorem, by recursion on calls, loop rounds and statements -----

  lemma {:induction false} BlockMeans(ss: seq<Statement>, u: Unit, names: Naming, cx: Context, f: Frame, s: Store,
      locals: Locals, fuel: nat)
    requires Ready(u, f, s, names) && SupportedBlock(ss, u, cx.Body?)
    ensures Simulates(ExecBlock(ss, u, f, fuel), ExecCBlock(LowerBlock(ss, u, names, cx), s, locals, fuel), u, names,
        cx, s)
    decreases u, fuel, ss, 0
  {
    hide Represents, Distinct, SupportedInstances, Kept, FieldsOf, ExecC, Exec, Lower, SupportedStatement;
    if ss != [] {
      assert ss[0] in ss && SupportedBlock(ss[1..], u, cx.Body?);
      StatementMeans(ss[0], u, names, cx, f, s, locals, fuel);
      var r, c := Exec(ss[0], u, f, fuel), ExecCBlock(Lower(ss[0], u, names, cx), s, locals, fuel);
      Concatenated(Lower(ss[0], u, names, cx), LowerBlock(ss[1..], u, names, cx), s, locals, fuel);
      if r.Done? && r.outcome.Normal? {
        var scope := ScopeAfter(Lower(ss[0], u, names, cx), s, locals, fuel);
        BlockMeans(ss[1..], u, names, cx, r.frame, c.store, scope, fuel);
        OnwardSimulates(ExecBlock(ss[1..], u, r.frame, fuel),
            ExecCBlock(LowerBlock(ss[1..], u, names, cx), c.store, scope, fuel),
                        u, names, cx, s, c.store);
      }
    } else {
      KeptItself(s, FieldsOf(u, names));
    }
  }

  // A declaration and the statement in its scope.
  lemma DeclaredThen(x: string, e: CExpr, c: CStmt, s: Store, locals: Locals, fuel: nat)
    requires EvalC(e, s, locals).Some?
    ensures ExecCBlock([CDecl(x, e), c], s, locals, fuel) == ExecC(c, s, locals[x := EvalC(e, s, locals).value], fuel)
  {
    assert [CDecl(x, e), c][1..] == [c];
    Alone(c, s, locals[x := EvalC(e, s, locals).value], fuel);
  }

  lemma KeptItself(s: Store, fields: iset<string>)
    ensures Kept(s, s, fields)
  {
  }

  // The statements without parts.
  lemma PlainMeans(s: Statement, u: Unit, names: Naming, cx: Context, f: Frame, st: Store, locals: Locals, fuel: nat)
    requires s.Empty? || s.Assignment? || s.Exit? || s.Return?
    requires Ready(u, f, st, names) && SupportedStatement(s, u, cx.Body?)
    ensures Simulates(Exec(s, u, f, fuel), ExecCBlock(Lower(s, u, names, cx), st, locals, fuel), u, names, cx, st)
  {
    hide Represents, Distinct, SupportedInstances, Kept, FieldsOf, Supported, TypeOf, Eval, EvalC, LowerExpr;
    KeptItself(st, FieldsOf(u, names));
    match s
    case Empty => Alone(CComment, st, locals, fuel);
    case Assignment(target, value) =>
      if Eval(value, f).Some? { AssignmentMeans(target, value, u, f, st, names, locals, fuel); }
    case _ =>
  }

  lemma {:induction false} StatementMeans(s: Statement, u: Unit, names: Naming, cx: Context, f: Frame, st: Store,
      locals: Locals, fuel: nat)
    requires Ready(u, f, st, names) && SupportedStatement(s, u, cx.Body?)
    ensures Simulates(Exec(s, u, f, fuel), ExecCBlock(Lower(s, u, names, cx), st, locals, fuel), u, names, cx, st)
    decreases u, fuel, s
  {
    hide Ready, Simulates, Supported, TypeOf, Prints, Eval, EvalC, LowerExpr, LowerBlock, ExecCBlock, LowerBranches,
         LowerElse, ExecIf, ExecWhile, ExecRepeat, ExecCWhile, ExecCDoWhile, ExecCArms;
    match s
    case If(branches, otherwise) =>
      IfMeans(s, 0, u, names, cx, f, st, locals, fuel);
      Alone(CIf(LowerBranches(branches, u, names, cx), LowerElse(otherwise, u, names, cx)), st, locals, fuel);
    case CaseOf(selector, cases, _) => SelectionMeans(s, u, names, cx, f, st, locals, fuel);
    case For(_, _, _, _, _) => CountedMeans(s, u, names, cx, f, st, locals, fuel);
    case While(condition, body) =>
      WhileMeans(condition, body, u, names, cx, f, st, locals, fuel);
      Alone(CWhile(LowerExpr(condition, u, names), LowerBlock(body, u, names, cx)), st, locals, fuel);
    case Repeat(body, until) =>
      RepeatMeans(body, until, u, names, cx, f, st, locals, fuel);
      Alone(CDoWhile(LowerBlock(body, u, names, cx), CUn(Bang, LowerExpr(until, u, names))), st, locals, fuel);
    case FbCall(_, _) => FbCallMeans(s, u, names, cx, f, st, locals, fuel);
    case _ => PlainMeans(s, u, names, cx, f, st, locals, fuel);
  }

  lemma ConditionMeans(e: Expr, u: Unit, names: Naming, f: Frame, s: Store, locals: Locals)
    requires Represents(s, u, f, names) && HasMeaning(e, u, TBool) && Eval(e, f).Some?
    ensures Eval(e, f).value.VBool?
    ensures EvalC(LowerExpr(e, u, names), s, locals) == Some(Bit(Eval(e, f).value.b))
  {
    hide Represents, Supported, TypeOf, Eval, EvalC, LowerExpr;
    ExpressionMeans(e, u, f, s, names, locals);
  }

  lemma NumberMeans(e: Expr, u: Unit, names: Naming, f: Frame, s: Store, locals: Locals)
    requires Represents(s, u, f, names) && HasMeaning(e, u, TInt) && Eval(e, f).Some?
    ensures Eval(e, f).value.VInt?
    ensures EvalC(LowerExpr(e, u, names), s, locals) == Some(Eval(e, f).value.n)
  {
    hide Represents, Supported, TypeOf, Eval, EvalC, LowerExpr;
    ExpressionMeans(e, u, f, s, names, locals);
  }

  lemma ArmStep(c: CStmt, k: nat, b: bool, s: Store, locals: Locals, fuel: nat)
    requires c.CIf? && k < |c.arms| && EvalC(c.arms[k].test, s, locals) == Some(Bit(b))
    ensures ExecCArms(c, k, s, locals, fuel)
            == if b then ExecCBlock(c.arms[k].body, s, locals, fuel) else ExecCArms(c, k + 1, s, locals, fuel)
  {
    hide EvalC;
  }

  lemma ArmsEnd(c: CStmt, s: Store, locals: Locals, fuel: nat)
    requires c.CIf?
    ensures ExecCArms(c, |c.arms|, s, locals, fuel)
            == if c.no.Else? then ExecCBlock(c.no.body, s, locals, fuel) else CDone(s, CNormal)
  {
  }

  lemma {:induction false} IfMeans(s: Statement, k: nat, u: Unit, names: Naming, cx: Context, f: Frame, st: Store,
      locals: Locals, fuel: nat)
    requires s.If? && k <= |s.branches| && Ready(u, f, st, names) && SupportedStatement(s, u, cx.Body?)
    ensures var c := CIf(LowerBranches(s.branches, u, names, cx), LowerElse(s.otherwise, u, names, cx));
      Simulates(ExecIf(s, k, u, f, fuel), ExecCArms(c, k, st, locals, fuel), u, names, cx, st)
    decreases u, fuel, s, |s.branches| - k
  {
    hide Represents, Distinct, SupportedInstances, Kept, FieldsOf, Simulates, Supported, TypeOf, Eval, EvalC,
         LowerExpr, LowerBlock, SupportedBlock, LowerBranches, LowerElse, ExecCArms, ExecCBlock, ExecBlock;
    var c := CIf(LowerBranches(s.branches, u, names, cx), LowerElse(s.otherwise, u, names, cx));
    if k == |s.branches| {
      ElseMeans(s.otherwise, u, names, cx, f, st, locals, fuel);
      ArmsEnd(c, st, locals, fuel);
    } else {
      var b := s.branches[k];
      assert b in s.branches;
      if Eval(b.condition, f).Some? {
        ConditionMeans(b.condition, u, names, f, st, locals);
        ArmStep(c, k, Eval(b.condition, f).value.b, st, locals, fuel);
        if Eval(b.condition, f).value.b {
          BlockMeans(b.body, u, names, cx, f, st, locals, fuel);
        } else {
          IfMeans(s, k + 1, u, names, cx, f, st, locals, fuel);
        }
      } else {
        Faulted(ExecIf(s, k, u, f, fuel), ExecCArms(c, k, st, locals, fuel), u, names, cx, st);
      }
    }
  }

  // The else part, which is not emitted when there is none.
  lemma {:induction false} ElseMeans(otherwise: seq<Statement>, u: Unit, names: Naming, cx: Context, f: Frame,
      st: Store, locals: Locals, fuel: nat)
    requires Ready(u, f, st, names) && SupportedBlock(otherwise, u, cx.Body?)
    ensures var no := LowerElse(otherwise, u, names, cx);
      Simulates(ExecBlock(otherwise, u, f, fuel),
                if no.Else? then ExecCBlock(no.body, st, locals, fuel) else CDone(st, CNormal), u, names, cx, st)
    decreases u, fuel, otherwise, 1
  {
    hide Represents, Distinct, SupportedInstances, Kept, FieldsOf, Supported;
    BlockMeans(otherwise, u, names, cx, f, st, locals, fuel);
  }

  lemma Faulted(r: Run, c: CRun, u: Unit, names: Naming, cx: Context, s: Store)
    requires r.Fault?
    ensures Simulates(r, c, u, names, cx, s)
  {
  }

  // ----- CASE -----

  lemma {:induction false} LabelsMean(labels: seq<CaseLabel>, v: int, selector: CExpr, u: Unit, names: Naming,
      f: Frame, s: Store, locals: Locals, inBlock: bool)
    requires Represents(s, u, f, names) && labels != [] && forall l <- labels :: SupportedLabel(l, u, inBlock)
    requires EvalC(selector, s, locals) == Some(v) && AnyMatches(labels, VInt(v), f).Some?
    ensures EvalC(AnyOf(LowerLabels(labels, selector, u, names)), s, locals)
        == Some(Bit(AnyMatches(labels, VInt(v), f).value))
  {
    var n := |labels| - 1;
    var tests := LowerLabels(labels, selector, u, names);
    hide Represents, Supported, TypeOf, Eval, EvalC, LowerExpr, LowerLabel, Matches, SupportedLabel;
    if n == 0 {
      LabelMeans(labels[0], v, selector, u, names, f, s, locals, inBlock);
    } else {
      FrontMatches(labels, VInt(v), f);
      LabelsMean(labels[..n], v, selector, u, names, f, s, locals, inBlock);
      assert LowerLabels(labels[..n], selector, u, names) == tests[..n];
      if !AnyMatches(labels[..n], VInt(v), f).value {
        LabelMeans(labels[n], v, selector, u, names, f, s, locals, inBlock);
      }
      OrMeans(AnyOf(tests[..n]), tests[n], AnyMatches(labels[..n], VInt(v), f).value, s, locals);
    }
  }

  lemma OrMeans(a: CExpr, b: CExpr, x: bool, s: Store, locals: Locals)
    requires EvalC(a, s, locals) == Some(Bit(x))
    ensures x ==> EvalC(CBin(OrOr, a, b), s, locals) == Some(1)
    ensures !x && EvalC(b, s, locals).Some?
        ==> EvalC(CBin(OrOr, a, b), s, locals) == Some(Bit(EvalC(b, s, locals).value != 0))
  {
  }

  // Labels are tried from the left, which C's grouping of `||` keeps.
  lemma {:induction false} FrontMatches(labels: seq<CaseLabel>, v: Value, f: Frame)
    requires |labels| > 1 && AnyMatches(labels, v, f).Some?
    ensures var n := |labels| - 1; var front := AnyMatches(labels[..n], v, f);
      && front.Some?
      && (front.value ==> AnyMatches(labels, v, f).value)
      && (!front.value ==> Matches(labels[n], v, f) == AnyMatches(labels, v, f))
  {
    var n := |labels| - 1;
    hide Matches;
    assert labels[..n][1..] == labels[1..][..n - 1];
    var m := Matches(labels[0], v, f);
    if m.Some? && !m.value {
      if n > 1 {
        FrontMatches(labels[1..], v, f);
      } else {
        assert labels[..n][1..] == [];
        assert labels[1..][1..] == [];
      }
    }
  }

  lemma LabelMeans(l: CaseLabel, v: int, selector: CExpr, u: Unit, names: Naming, f: Frame, s: Store, locals: Locals,
      inBlock: bool)
    requires Represents(s, u, f, names) && SupportedLabel(l, u, inBlock)
    requires EvalC(selector, s, locals) == Some(v) && Matches(l, VInt(v), f).Some?
    ensures EvalC(LowerLabel(l, selector, u, names), s, locals) == Some(Bit(Matches(l, VInt(v), f).value))
  {
    hide Represents, Supported, TypeOf, Eval, LowerExpr;
    match l
    case Single(e) => NumberMeans(e, u, names, f, s, locals);
    case Range(low, high) =>
      NumberMeans(low, u, names, f, s, locals);
      NumberMeans(high, u, names, f, s, locals);
      hide Wide;
      var a, b := LowerExpr(low, u, names), LowerExpr(high, u, names);
      assert EvalC(CBin(Arithmetic(Ge), selector, a), s, locals) == Some(Bit(v >= Eval(low, f).value.n));
      assert EvalC(CBin(Arithmetic(Le), selector, b), s, locals) == Some(Bit(v <= Eval(high, f).value.n));
  }

  lemma {:induction false} CaseMeans(s: Statement, v: int, selector: CExpr, k: nat, u: Unit, names: Naming, cx: Context,
                                     f: Frame, st: Store, locals: Locals, fuel: nat)
    requires s.CaseOf? && k <= |s.cases| && Ready(u, f, st, names) && SupportedStatement(s, u, cx.Body?)
    requires EvalC(selector, st, locals) == Some(v)
    ensures var c := CIf(LowerCases(s.cases, selector, u, names, cx), LowerElse(s.otherwise, u, names, cx));
      Simulates(ExecCase(s, VInt(v), k, u, f, fuel), ExecCArms(c, k, st, locals, fuel), u, names, cx, st)
    decreases u, fuel, s, |s.cases| - k
  {
    hide Represents, Distinct, SupportedInstances, Kept, FieldsOf, Simulates, Supported, TypeOf, EvalC, LowerExpr,
         LowerBlock, SupportedBlock, AnyMatches, AnyOf, LowerLabels, LowerCases, LowerElse, ExecCArms, ExecCBlock,
         ExecBlock;
    var all := CIf(LowerCases(s.cases, selector, u, names, cx), LowerElse(s.otherwise, u, names, cx));
    if k == |s.cases| {
      ElseMeans(s.otherwise, u, names, cx, f, st, locals, fuel);
      ArmsEnd(all, st, locals, fuel);
    } else {
      var c := s.cases[k];
      assert c in s.cases;
      if AnyMatches(c.labels, VInt(v), f).Some? {
        LabelsMean(c.labels, v, selector, u, names, f, st, locals, cx.Body?);
        ArmStep(all, k, AnyMatches(c.labels, VInt(v), f).value, st, locals, fuel);
        if AnyMatches(c.labels, VInt(v), f).value {
          BlockMeans(c.body, u, names, cx, f, st, locals, fuel);
        } else {
          CaseMeans(s, v, selector, k + 1, u, names, cx, f, st, locals, fuel);
        }
      } else {
        Faulted(ExecCase(s, VInt(v), k, u, f, fuel), ExecCArms(all, k, st, locals, fuel), u, names, cx, st);
      }
    }
  }

  // A program repeats the selector in every label, a body keeps it in a local.
  lemma {:induction false} SelectionMeans(s: Statement, u: Unit, names: Naming, cx: Context, f: Frame, st: Store,
      locals: Locals, fuel: nat)
    requires s.CaseOf? && Ready(u, f, st, names) && SupportedStatement(s, u, cx.Body?)
    ensures Simulates(Exec(s, u, f, fuel), ExecCBlock(Lower(s, u, names, cx), st, locals, fuel), u, names, cx, st)
    decreases u, fuel, s, |s.cases| + 1
  {
    hide Represents, Distinct, SupportedInstances, Kept, FieldsOf, Simulates, Supported, TypeOf, Eval, LowerExpr,
         LowerBlock, SupportedBlock, ExecCase, LowerCases, LowerElse;
    var sel := LowerExpr(s.selector, u, names);
    if Eval(s.selector, f).Some? {
      NumberMeans(s.selector, u, names, f, st, locals);
      var v := Eval(s.selector, f).value.n;
      if cx.Program? {
        CaseMeans(s, v, sel, 0, u, names, cx, f, st, locals, fuel);
        Alone(CIf(LowerCases(s.cases, sel, u, names, cx), LowerElse(s.otherwise, u, names, cx)), st, locals, fuel);
      } else {
        var inner := locals[SELECTOR := v];
        var c := CIf(LowerCases(s.cases, CLocal(SELECTOR), u, names, cx), LowerElse(s.otherwise, u, names, cx));
        CaseMeans(s, v, CLocal(SELECTOR), 0, u, names, cx, f, st, inner, fuel);
        Alone(c, st, inner, fuel);
        DeclaredThen(SELECTOR, sel, c, st, locals, fuel);
      }
    } else {
      Faulted(Exec(s, u, f, fuel), ExecCBlock(Lower(s, u, names, cx), st, locals, fuel), u, names, cx, st);
    }
  }

  // ----- loops -----

  lemma {:induction false} WhileMeans(condition: Expr, body: seq<Statement>, u: Unit, names: Naming, cx: Context,
                                      f: Frame, s: Store, locals: Locals, fuel: nat)
    requires Ready(u, f, s, names) && HasMeaning(condition, u, TBool) && SupportedBlock(body, u, cx.Body?)
    ensures Simulates(ExecWhile(condition, body, u, f, fuel),
                      ExecCWhile(LowerExpr(condition, u, names), LowerBlock(body, u, names, cx), s, locals, fuel), u,
                          names, cx, s)
    decreases u, fuel, body, 0
  {
    hide Represents, Distinct, SupportedInstances, Kept, FieldsOf, Supported, TypeOf, Eval, EvalC, LowerExpr,
         LowerBlock, SupportedBlock;
    KeptItself(s, FieldsOf(u, names));
    if fuel > 0 && Eval(condition, f).Some? {
      ConditionMeans(condition, u, names, f, s, locals);
      if Eval(condition, f).value.b {
        BlockMeans(body, u, names, cx, f, s, locals, fuel - 1);
        var r, c := ExecBlock(body, u, f, fuel - 1), ExecCBlock(LowerBlock(body, u, names, cx), s, locals, fuel - 1);
        if r.Done? && r.outcome.Normal? {
          WhileMeans(condition, body, u, names, cx, r.frame, c.store, locals, fuel - 1);
          OnwardSimulates(ExecWhile(condition, body, u, r.frame, fuel - 1),
                          ExecCWhile(LowerExpr(condition, u, names), LowerBlock(body, u, names, cx), c.store, locals,
                              fuel - 1),
                          u, names, cx, s, c.store);
        }
      }
    }
  }

  lemma UntilMeans(until: Expr, u: Unit, names: Naming, f: Frame, s: Store, locals: Locals)
    requires Represents(s, u, f, names) && HasMeaning(until, u, TBool) && Eval(until, f).Some?
    ensures Eval(until, f).value.VBool?
    ensures EvalC(CUn(Bang, LowerExpr(until, u, names)), s, locals) == Some(Bit(!Eval(until, f).value.b))
  {
    hide Represents, Supported, TypeOf, Eval, LowerExpr, Wide;
    ConditionMeans(until, u, names, f, s, locals);
  }

  lemma {:induction false} RepeatMeans(body: seq<Statement>, until: Expr, u: Unit, names: Naming, cx: Context,
                                       f: Frame, s: Store, locals: Locals, fuel: nat)
    requires Ready(u, f, s, names) && HasMeaning(until, u, TBool) && SupportedBlock(body, u, cx.Body?)
    ensures Simulates(ExecRepeat(body, until, u, f, fuel),
                      ExecCDoWhile(LowerBlock(body, u, names, cx), CUn(Bang, LowerExpr(until, u, names)), s, locals,
                          fuel), u, names, cx, s)
    decreases u, fuel, body, 0
  {
    hide Represents, Distinct, SupportedInstances, Kept, FieldsOf, Supported, TypeOf, Eval, EvalC, LowerExpr,
         LowerBlock, SupportedBlock;
    if fuel == 0 {
    } else {
      BlockMeans(body, u, names, cx, f, s, locals, fuel - 1);
      var r, c := ExecBlock(body, u, f, fuel - 1), ExecCBlock(LowerBlock(body, u, names, cx), s, locals, fuel - 1);
      if r.Done? && r.outcome.Normal? && Eval(until, r.frame).Some? {
        UntilMeans(until, u, names, r.frame, c.store, locals);
        if !Eval(until, r.frame).value.b {
          RepeatMeans(body, until, u, names, cx, r.frame, c.store, locals, fuel - 1);
          OnwardSimulates(ExecRepeat(body, until, u, r.frame, fuel - 1),
                          ExecCDoWhile(LowerBlock(body, u, names, cx), CUn(Bang, LowerExpr(until, u, names)), c.store,
                              locals, fuel - 1),
                          u, names, cx, s, c.store);
        }
      }
    }
  }

  // ----- FOR -----

  lemma ForTestMeans(control: string, bound: CExpr, v: int, last: int, step: int, s: Store, locals: Locals)
    requires STEP in locals && locals[STEP] == step
    requires control in s && s[control] == VInt(v) && EvalC(bound, s, locals) == Some(last)
    ensures EvalC(ForTest(control, bound), s, locals) == Some(Bit(if step >= 0 then v <= last else v >= last))
  {
    hide Wide;
    assert EvalC(CInt(0), s, locals) == Some(0) && EvalC(CLocal(STEP), s, locals) == Some(step);
    assert EvalC(CBin(Arithmetic(Ge), CLocal(STEP), CInt(0)), s, locals) == Some(Bit(step >= 0));
    assert EvalC(CField(control), s, locals) == Some(v);
    assert EvalC(CBin(Arithmetic(Le), CField(control), bound), s, locals) == Some(Bit(v <= last));
    assert EvalC(CBin(Arithmetic(Ge), CField(control), bound), s, locals) == Some(Bit(v >= last));
  }

  lemma IncrementMeans(control: string, v: int, step: int, s: Store, locals: Locals)
    requires STEP in locals && locals[STEP] == step && control in s && s[control] == VInt(v)
    ensures EvalC(CBin(Arithmetic(Add), CField(control), CLocal(STEP)), s, locals) == Arith(Add, v, step, INT64)
  {
    hide Arith;
    var e := CBin(Arithmetic(Add), CField(control), CLocal(STEP));
    assert EvalC(CField(control), s, locals) == Some(v) && EvalC(CLocal(STEP), s, locals) == Some(step) && Wide(e, s);
  }

  lemma {:induction false} ReadsDeclared(e: Expr, u: Unit, p: Path)
    requires TypeOf(e, u).Some? && p in Reads(e)
    ensures Declared(u, p)
  {
    match e
    case Unary(_, a) => ReadsDeclared(a, u, p);
    case Binary(_, l, r) => if p in Reads(l) { ReadsDeclared(l, u, p); } else { ReadsDeclared(r, u, p); }
    case Call(_, args) => ReadsAllDeclared(args, u, p);
    case Mux(k, inputs) => if p in Reads(k) { ReadsDeclared(k, u, p); } else { ReadsAllDeclared(inputs, u, p); }
    case _ =>
  }

  lemma {:induction false} ReadsAllDeclared(es: seq<Expr>, u: Unit, p: Path)
    requires (forall e <- es :: TypeOf(e, u).Some?) && p in ReadsAll(es)
    ensures Declared(u, p)
  {
    assert es[0] in es;
    if p in Reads(es[0]) { ReadsDeclared(es[0], u, p); } else { ReadsAllDeclared(es[1..], u, p); }
  }

  lemma ReadsAreIn(e: Expr, u: Unit, f: Frame)
    requires IsFrame(u, f) && TypeOf(e, u).Some?
    ensures ReadsIn(e, f)
  {
    hide TypeOf;
    forall p <- Reads(e) ensures p in f { ReadsDeclared(e, u, p); }
  }

  lemma NumberIn(p: Path, u: Unit, f: Frame, s: Store, names: Naming)
    requires Represents(s, u, f, names) && TypeAt(u, p) == Some(TInt)
    ensures p in f && f[p].VInt? && names(p) in s && s[names(p)] == f[p]
  {
    assert Declared(u, p);
  }

  lemma {:induction false} ForMeans(control: Path, bound: Expr, step: int, body: seq<Statement>, u: Unit,
      names: Naming, cx: Context, f: Frame, s: Store, locals: Locals, fuel: nat)
    requires Ready(u, f, s, names) && TypeAt(u, control) == Some(TInt) && HasMeaning(bound, u, TInt)
    requires SupportedBlock(body, u, cx.Body?)
    requires STEP in locals && locals[STEP] == step
    ensures Simulates(ReevaluateFor(control, bound, step, body, u, f, fuel),
                      ExecCFor(names(control), ForTest(names(control), LowerExpr(bound, u, names)), CLocal(STEP),
                               LowerBlock(body, u, names, cx), s, locals, fuel),
                      u, names, cx, s)
    decreases u, fuel, body, 0
  {
    hide Represents, Distinct, SupportedInstances, Kept, FieldsOf, Supported, TypeOf, TypeAt, Eval, EvalC, LowerExpr,
         LowerBlock, SupportedBlock, Arith, ForTest;
    KeptItself(s, FieldsOf(u, names));
    if fuel == 0 {
    } else if Eval(bound, f).Some? {
      NumberIn(control, u, f, s, names);
      NumberMeans(bound, u, names, f, s, locals);
      var c, e := names(control), LowerExpr(bound, u, names);
      ForTestMeans(c, e, f[control].n, Eval(bound, f).value.n, step, s, locals);
      if GoesOn(f[control].n, Eval(bound, f).value.n, step) {
        BlockMeans(body, u, names, cx, f, s, locals, fuel - 1);
        var r, d := ExecBlock(body, u, f, fuel - 1), ExecCBlock(LowerBlock(body, u, names, cx), s, locals, fuel - 1);
        if r.Done? && r.outcome.Normal? {
          NumberIn(control, u, r.frame, d.store, names);
          var v := r.frame[control].n;
          IncrementMeans(c, v, step, d.store, locals);
          var next := Arith(Add, v, step, INT64);
          if next.Some? {
            var w := VInt(next.value);
            AssignedField(control, w, u, r.frame, d.store, names);
            ForMeans(control, bound, step, body, u, names, cx, r.frame[control := w], d.store[c := w], locals,
                fuel - 1);
            KeptOn(s, d.store, d.store[c := w], FieldsOf(u, names));
            OnwardSimulates(ReevaluateFor(control, bound, step, body, u, r.frame[control := w], fuel - 1),
                            ExecCFor(c, ForTest(c, e), CLocal(STEP), LowerBlock(body, u, names, cx), d.store[c := w],
                                locals, fuel - 1),
                            u, names, cx, s, d.store[c := w]);
          }
        }
      }
    }
  }

  // What a FOR statement needs but for the stability of its bound.
  predicate SupportedLoop(s: Statement, u: Unit, inBlock: bool)
    requires s.For?
  {
    && TypeAt(u, [s.control]) == Some(TInt)
    && HasMeaning(s.first, u, TInt) && HasMeaning(s.bound, u, TInt)
        && (s.step.Some? ==> HasMeaning(s.step.value, u, TInt))
    && SupportedBlock(s.body, u, inBlock)
  }

  // The whole FOR statement as it is emitted: step, first value, then the rounds.
  lemma {:induction false} EmittedForMeans(s: Statement, u: Unit, names: Naming, cx: Context, f: Frame, st: Store,
      locals: Locals, fuel: nat)
    requires s.For? && Ready(u, f, st, names) && SupportedLoop(s, u, cx.Body?)
    ensures Simulates(EmittedFor(s, u, f, fuel), ExecCBlock(Lower(s, u, names, cx), st, locals, fuel), u, names, cx, st)
    decreases u, fuel, s, 0
  {
    hide Represents, Distinct, SupportedInstances, Kept, FieldsOf, Supported, TypeOf, TypeAt, Eval, EvalC, LowerExpr,
         LowerBlock, SupportedBlock, ForTest, ReevaluateFor, ExecCFor, Simulates;
    var control, c := [s.control], names([s.control]);
    var from := Eval(s.first, f);
    var stride := if s.step.Some? then Eval(s.step.value, f) else Some(VInt(1));
    var stepC := if s.step.Some? then LowerExpr(s.step.value, u, names) else CInt(1);
    if from.Some? && stride.Some? {
      NumberMeans(s.first, u, names, f, st, locals);
      StepMeans(s.step, u, names, f, st, locals);
      var inner := locals[STEP := stride.value.n];
      AssignmentMeans(control, s.first, u, f, st, names, inner, fuel);
      NumberIn(control, u, f, st, names);
      NumberMeans(s.first, u, names, f, st, inner);
      var f', st' := f[control := from.value], st[c := from.value];
      ForMeans(control, s.bound, stride.value.n, s.body, u, names, cx, f', st', inner, fuel);
      var loop := CFor(c, LowerExpr(s.first, u, names), ForTest(c, LowerExpr(s.bound, u, names)), CLocal(STEP),
                       LowerBlock(s.body, u, names, cx));
      Alone(loop, st, inner, fuel);
      DeclaredThen(STEP, stepC, loop, st, locals, fuel);
      Alone(CBraces([CDecl(STEP, stepC), loop]), st, locals, fuel);
      OnwardSimulates(EmittedFor(s, u, f, fuel), ExecC(loop, st, inner, fuel), u, names, cx, st, st');
    } else {
      Faulted(EmittedFor(s, u, f, fuel), ExecCBlock(Lower(s, u, names, cx), st, locals, fuel), u, names, cx, st);
    }
  }

  // With a stable bound that is the statement Structured Text has.
  lemma {:induction false} CountedMeans(s: Statement, u: Unit, names: Naming, cx: Context, f: Frame, st: Store,
      locals: Locals, fuel: nat)
    requires s.For? && Ready(u, f, st, names) && SupportedStatement(s, u, cx.Body?)
    ensures Simulates(Exec(s, u, f, fuel), ExecCBlock(Lower(s, u, names, cx), st, locals, fuel), u, names, cx, st)
    decreases u, fuel, s, 1
  {
    hide Distinct, SupportedInstances, Kept, FieldsOf, Holds, Supported, TypeOf, Lower, Exec, EmittedFor, IsFrame,
         StableBound, ExecCBlock, SupportedBlock;
    EmittedForMeans(s, u, names, cx, f, st, locals, fuel);
    ReadsAreIn(s.bound, u, f);
    StableForIsEmitted(s, u, f, fuel);
  }

  // A step of zero: where no round faults, the C ends exactly when the first
  // value is past the bound. The interpreter reports the step and goes on.
  lemma ZeroStepLoops(s: Statement, u: Unit, names: Naming, cx: Context, f: Frame, st: Store, locals: Locals,
      fuel: nat, first: int, last: int)
    requires s.For? && Ready(u, f, st, names) && SupportedStatement(s, u, cx.Body?)
    requires s.step.Some? && Eval(s.step.value, f) == Some(VInt(0))
    requires Eval(s.first, f) == Some(VInt(first)) && Fits(first, INT64) && Eval(s.bound, f) == Some(VInt(last))
    requires !BlockWrites(s.body, u, [s.control]) && !BlockLeaves(s.body, Exited) && !BlockLeaves(s.body, Returned)
    requires fuel > 0 && !EmittedFor(s, u, f, fuel).Fault?
    ensures ExecCBlock(Lower(s, u, names, cx), st, locals, fuel).COutOfFuel? <==> first <= last
  {
    hide Distinct, SupportedInstances, Kept, FieldsOf, Holds, Supported, TypeOf, Lower, Eval, EmittedFor, IsFrame,
         StableBound, ExecCBlock, SupportedBlock, BlockWrites, BlockLeaves;
    EmittedForMeans(s, u, names, cx, f, st, locals, fuel);
    ReadsAreIn(s.bound, u, f);
    NumberIn([s.control], u, f, st, names);
    ZeroStepIsSkipped(s, u, f, fuel, first, last);
  }

  lemma StepMeans(step: Option<Expr>, u: Unit, names: Naming, f: Frame, s: Store, locals: Locals)
    requires Represents(s, u, f, names) && (step.Some? ==> HasMeaning(step.value, u, TInt))
    requires step.Some? ==> Eval(step.value, f).Some?
    ensures var v := if step.Some? then Eval(step.value, f) else Some(VInt(1));
      v.value.VInt? && EvalC(if step.Some? then LowerExpr(step.value, u, names) else CInt(1), s, locals)
          == Some(v.value.n)
  {
    if step.Some? {
      hide Represents, Supported, TypeOf, Eval, EvalC, LowerExpr;
      NumberMeans(step.value, u, names, f, s, locals);
    }
  }

  // ----- function-block calls -----

  // The inlined body is the block's body on the instance's own frame.
  lemma {:induction false} FbCallMeans(s: Statement, u: Unit, names: Naming, cx: Context, f: Frame, st: Store,
      locals: Locals, fuel: nat)
    requires s.FbCall? && Ready(u, f, st, names) && SupportedStatement(s, u, cx.Body?)
    ensures Simulates(Exec(s, u, f, fuel), ExecCBlock(Lower(s, u, names, cx), st, locals, fuel), u, names, cx, st)
    decreases u, fuel, s, 1
  {
    hide Represents, Distinct, Kept, FieldsOf, Supported, TypeOf, TypeAt, Eval, EvalC, LowerExpr, LowerBlock,
         SupportedBlock, ExecBlock, ExecCBlock, BindInputs, CopyInOuts, CopyOutputs, LowerInputs, LowerInOuts,
         LowerOutputs, SupportedArguments, Merge, FrameOf, Under;
    var instance, args := s.instance, s.arguments;
    var block, inner := BlockOf(u, instance), Under(names, instance);
    var target := ReturnLabel(names, instance);
    var called := BindInputs(args, 0, block, instance, f);
    if called.None? { return; }
    var inputs, inOuts := LowerInputs(args, 0, block, instance, u, names), LowerInOuts(args, 0, block, instance, names);
    var outputs := LowerOutputs(args, instance, names);
    InputsMean(args, 0, block, instance, u, f, st, names, locals, fuel, cx.Body?);
    var st1, l1 := ExecCBlock(inputs, st, locals, fuel).store, ScopeAfter(inputs, st, locals, fuel);
    BodyMeans(s, u, names, target, called.value, st1, l1, fuel);
    var once := COnce(LowerBlock(block.body, block, inner, Body(target)), target);
    var r := ExecBlock(block.body, block, FrameOf(called.value, instance), fuel);
    if r.Fault? { return; }
    Concatenated(inputs, [once], st, locals, fuel);
    Alone(once, st1, l1, fuel);
    Concatenated(inputs + [once], inOuts, st, locals, fuel);
    Concatenated(inputs + [once] + inOuts, outputs, st, locals, fuel);
    if r.Done? {
      var l2, l3 := ScopeAfter(inputs + [once], st, locals, fuel),
          ScopeAfter(inputs + [once] + inOuts, st, locals, fuel);
      var back := Merge(called.value, instance, r.frame);
      var st2 := ExecC(once, st1, l1, fuel).store;
      InOutsMean(args, 0, block, instance, u, back, st2, names, l2, fuel, cx.Body?);
      var st3 := ExecCBlock(inOuts, st2, l2, fuel).store;
      OutputsMean(args, 0, block, instance, u, CopyInOuts(args, 0, block, instance, back), st3, names, l3, fuel,
          cx.Body?);
      var st4 := ExecCBlock(outputs, st3, l3, fuel).store;
      KeptOn(st, st1, st2, FieldsOf(u, names));
      KeptOn(st, st2, st3, FieldsOf(u, names));
      KeptOn(st, st3, st4, FieldsOf(u, names));
    }
  }

  // The body in `do { ... label:; } while (0)`, whichever way it ends.
  lemma {:induction false} BodyMeans(call: Statement, u: Unit, names: Naming, target: string, f: Frame, s: Store,
      locals: Locals, fuel: nat)
    requires call.FbCall? && HasInstance(u, call.instance) && Ready(u, f, s, names)
    ensures var block := BlockOf(u, call.instance);
      var r := ExecBlock(block.body, block, FrameOf(f, call.instance), fuel);
      var c := ExecC(COnce(LowerBlock(block.body, block, Under(names, call.instance), Body(target)), target), s,
          locals, fuel);
      && (r.OutOfFuel? ==> c.COutOfFuel?)
      && (r.Done? ==> c.CDone? && c.outcome.CNormal?
                      && Represents(c.store, u, Merge(f, call.instance, r.frame), names)
                          && Kept(s, c.store, FieldsOf(u, names)))
    decreases u, fuel, call, 0
  {
    hide Represents, Distinct, Kept, FieldsOf, LowerBlock, SupportedBlock, ExecBlock, ExecCBlock, Merge, FrameOf, Under;
    var instance := call.instance;
    var block, inner := BlockOf(u, instance), Under(names, instance);
    InstanceIsRepresented(u, f, s, names, instance);
    UnderIsDistinct(u, names, instance);
    assert SupportedInstances(block) && SupportedBlock(block.body, block, true);
    BlockMeans(block.body, block, inner, Body(target), FrameOf(f, instance), s, locals, fuel);
    var r := ExecBlock(block.body, block, FrameOf(f, instance), fuel);
    if r.Done? {
      MergedIsRepresented(u, f, s, names, instance, r.frame,
                          ExecCBlock(LowerBlock(block.body, block, inner, Body(target)), s, locals, fuel).store);
    }
  }
}
