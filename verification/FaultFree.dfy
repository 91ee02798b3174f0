/**
 * A condition on the text of a block under which no run of it faults, and what
 * the C of a FOR statement with a step of zero does over such a body.
 */
module FaultFree {
  import opened Wrappers
  import opened Values
  import opened StructuredText
  import opened CCode
  import opened Lowering
  import opened ExpressionMeaning
  import opened StoreFrames
  import opened Untouched
  import opened ForControl
  import opened InlinedCalls
  import opened StatementMeaning

  // No arithmetic and no FOR, here and in the blocks that are called.
  predicate NeverFaults(ss: seq<Statement>, u: Unit)
    decreases u, ss
  {
    forall s <- ss :: StatementNeverFaults(s, u)
  }

  predicate StatementNeverFaults(s: Statement, u: Unit)
    decreases u, s
  {
    match s
    case Assignment(_, value) => Total(value)
    case If(branches, otherwise) =>
      && (forall b <- branches :: Total(b.condition) && NeverFaults(b.body, u))
      && NeverFaults(otherwise, u)
    case CaseOf(selector, cases, otherwise) =>
      && Total(selector)
      && (forall c <- cases :: (forall l <- c.labels :: TotalLabel(l)) && NeverFaults(c.body, u))
      && NeverFaults(otherwise, u)
    case For(_, _, _, _, _) => false
    case While(condition, body) => Total(condition) && NeverFaults(body, u)
    case Repeat(body, until) => Total(until) && NeverFaults(body, u)
    case FbCall(instance, arguments) =>
      && HasInstance(u, instance) && (forall a <- arguments :: a.Input? ==> Total(a.expr))
      && NeverFaults(BlockOf(u, instance).body, BlockOf(u, instance))
    case _ => true
  }

  predicate TotalLabel(l: CaseLabel) {
    match l
    case Single(e) => Total(e)
    case Range(low, high) => Total(low) && Total(high)
  }

  function ContextOf(inBlock: bool): Context {
    if inBlock then Body("") else Program
  }

  // A run of a supported block ends in a frame again.
  lemma FrameAfter(ss: seq<Statement>, u: Unit, names: Naming, inBlock: bool, f: Frame, st: Store, fuel: nat)
      returns (t: Store)
    requires Ready(u, f, st, names) && SupportedBlock(ss, u, inBlock)
    ensures var r := ExecBlock(ss, u, f, fuel); r.Done? ==> Ready(u, r.frame, t, names)
  {
    hide Represents, Distinct, SupportedInstances, Kept, FieldsOf, ExecBlock, ExecCBlock, LowerBlock, SupportedBlock;
    var cx := ContextOf(inBlock);
    BlockMeans(ss, u, names, cx, f, st, map[], fuel);
    var c := ExecCBlock(LowerBlock(ss, u, names, cx), st, map[], fuel);
    t := if c.CDone? then c.store else st;
  }

  lemma TotalIs(e: Expr, u: Unit, f: Frame, st: Store, names: Naming, t: Ty)
    requires Ready(u, f, st, names) && Total(e) && HasMeaning(e, u, t)
    ensures Eval(e, f).Some? && TypeOfValue(Eval(e, f).value) == t
  {
    hide Supported, TypeOf, Eval, Total, Distinct, SupportedInstances;
    TotalHasValue(e, u, f);
  }

  lemma AssignedRuns(value: Expr, u: Unit, f: Frame, st: Store, names: Naming)
    requires Ready(u, f, st, names) && Total(value) && TypeOf(value, u).Some?
    ensures Eval(value, f).Some?
  {
    hide TypeOf, Eval, Total, Distinct, SupportedInstances;
    TotalHasValue(value, u, f);
  }

  lemma TotalMatches(l: CaseLabel, v: Value, u: Unit, f: Frame, st: Store, names: Naming, inBlock: bool)
    requires Ready(u, f, st, names) && TotalLabel(l) && SupportedLabel(l, u, inBlock)
    ensures Matches(l, v, f).Some?
  {
    hide Ready, Supported, TypeOf, Prints, Eval, Total;
    match l
    case Single(e) => TotalIs(e, u, f, st, names, TInt);
    case Range(low, high) =>
      TotalIs(low, u, f, st, names, TInt);
      TotalIs(high, u, f, st, names, TInt);
  }

  lemma {:induction false} AllMatch(labels: seq<CaseLabel>, v: Value, u: Unit, f: Frame, st: Store, names: Naming,
      inBlock: bool)
    requires Ready(u, f, st, names) && forall l <- labels :: TotalLabel(l) && SupportedLabel(l, u, inBlock)
    ensures AnyMatches(labels, v, f).Some?
  {
    hide Ready, TotalLabel, SupportedLabel, Matches;
    if labels == [] {
    } else {
      assert labels[0] in labels;
      TotalMatches(labels[0], v, u, f, st, names, inBlock);
      AllMatch(labels[1..], v, u, f, st, names, inBlock);
    }
  }

  lemma {:induction false} InputsBind(args: seq<Argument>, position: nat, block: Unit, instance: Name, u: Unit,
      f: Frame, inBlock: bool)
    requires IsFrame(u, f) && HasInstance(u, instance) && block == BlockOf(u, instance)
    requires SupportedArguments(args, position, block, u, inBlock) && forall a <- args :: a.Input? ==> Total(a.expr)
    ensures BindInputs(args, position, block, instance, f).Some?
    decreases |args|
  {
    hide Supported, TypeOf, Prints, Eval, Total;
    if args == [] {
    } else {
      assert args[0] in args;
      var t, next := InputTarget(InputFields(block.vars), args[0], position), NextPosition(args[0], position);
      if t.None? {
        InputsBind(args[1..], next, block, instance, u, f, inBlock);
      } else {
        TotalHasValue(args[0].expr, u, f);
        FieldPath(u, instance, t.value.name);
        InputsBind(args[1..], next, block, instance, u,
                   f[[instance, t.value.name] := Eval(args[0].expr, f).value], inBlock);
      }
    }
  }

  // ----- by recursion on calls, loop rounds and statements -----

  lemma {:induction false} BlockRuns(ss: seq<Statement>, u: Unit, names: Naming, inBlock: bool, f: Frame, st: Store,
      fuel: nat)
    requires Ready(u, f, st, names) && SupportedBlock(ss, u, inBlock) && NeverFaults(ss, u)
    ensures !ExecBlock(ss, u, f, fuel).Fault?
    decreases u, fuel, ss, 0
  {
    hide Ready, Exec, SupportedStatement, StatementNeverFaults;
    if ss == [] {
    } else {
      assert ss[0] in ss && SupportedBlock(ss[1..], u, inBlock) && NeverFaults(ss[1..], u);
      StatementRuns(ss[0], u, names, inBlock, f, st, fuel);
      var r := Exec(ss[0], u, f, fuel);
      if r.Done? && r.outcome.Normal? {
        assert [ss[0]][0] == ss[0] && [ss[0]][1..] == [] && ExecBlock([ss[0]], u, f, fuel) == r;
        var t := FrameAfter([ss[0]], u, names, inBlock, f, st, fuel);
        BlockRuns(ss[1..], u, names, inBlock, r.frame, t, fuel);
      }
    }
  }

  lemma {:induction false} StatementRuns(s: Statement, u: Unit, names: Naming, inBlock: bool, f: Frame, st: Store,
      fuel: nat)
    requires Ready(u, f, st, names) && SupportedStatement(s, u, inBlock) && StatementNeverFaults(s, u)
    ensures !Exec(s, u, f, fuel).Fault?
    decreases u, fuel, s
  {
    hide Ready, Supported, TypeOf, Prints, Eval, Total, ExecBlock, ExecIf, ExecCase, ExecWhile, ExecRepeat,
         SupportedBlock, NeverFaults, SupportedArguments;
    match s
    case Assignment(target, value) => AssignedRuns(value, u, f, st, names);
    case If(_, _) => IfRuns(s, 0, u, names, inBlock, f, st, fuel);
    case CaseOf(selector, _, _) =>
      TotalIs(selector, u, f, st, names, TInt);
      CaseRuns(s, Eval(selector, f).value, 0, u, names, inBlock, f, st, fuel);
    case While(condition, body) => WhileRuns(condition, body, u, names, inBlock, f, st, fuel);
    case Repeat(body, until) => RepeatRuns(body, until, u, names, inBlock, f, st, fuel);
    case FbCall(_, _) => CallRuns(s, u, names, inBlock, f, st, fuel);
    case _ =>
  }

  lemma {:induction false} IfRuns(s: Statement, k: nat, u: Unit, names: Naming, inBlock: bool, f: Frame, st: Store,
      fuel: nat)
    requires s.If? && k <= |s.branches|
    requires Ready(u, f, st, names) && SupportedStatement(s, u, inBlock) && StatementNeverFaults(s, u)
    ensures !ExecIf(s, k, u, f, fuel).Fault?
    decreases u, fuel, s, |s.branches| - k
  {
    hide Ready, Supported, TypeOf, Prints, Eval, Total, ExecBlock, SupportedBlock, NeverFaults;
    if k == |s.branches| {
      BlockRuns(s.otherwise, u, names, inBlock, f, st, fuel);
    } else {
      var b := s.branches[k];
      assert b in s.branches;
      TotalIs(b.condition, u, f, st, names, TBool);
      BlockRuns(b.body, u, names, inBlock, f, st, fuel);
      IfRuns(s, k + 1, u, names, inBlock, f, st, fuel);
    }
  }

  lemma {:induction false} CaseRuns(s: Statement, v: Value, k: nat, u: Unit, names: Naming, inBlock: bool, f: Frame,
      st: Store, fuel: nat)
    requires s.CaseOf? && k <= |s.cases|
    requires Ready(u, f, st, names) && SupportedStatement(s, u, inBlock) && StatementNeverFaults(s, u)
    ensures !ExecCase(s, v, k, u, f, fuel).Fault?
    decreases u, fuel, s, |s.cases| - k
  {
    hide Ready, Supported, TypeOf, Prints, Total, TotalLabel, SupportedLabel, AnyMatches, ExecBlock, SupportedBlock,
         NeverFaults;
    if k == |s.cases| {
      BlockRuns(s.otherwise, u, names, inBlock, f, st, fuel);
    } else {
      var c := s.cases[k];
      assert c in s.cases;
      AllMatch(c.labels, v, u, f, st, names, inBlock);
      BlockRuns(c.body, u, names, inBlock, f, st, fuel);
      CaseRuns(s, v, k + 1, u, names, inBlock, f, st, fuel);
    }
  }

  lemma {:induction false} WhileRuns(condition: Expr, body: seq<Statement>, u: Unit, names: Naming, inBlock: bool,
      f: Frame, st: Store, fuel: nat)
    requires Ready(u, f, st, names) && HasMeaning(condition, u, TBool) && Total(condition)
    requires SupportedBlock(body, u, inBlock) && NeverFaults(body, u)
    ensures !ExecWhile(condition, body, u, f, fuel).Fault?
    decreases u, fuel, body, 1
  {
    hide Ready, HasMeaning, Eval, Total, ExecBlock, SupportedBlock, NeverFaults;
    if fuel == 0 {
    } else {
      TotalIs(condition, u, f, st, names, TBool);
      BlockRuns(body, u, names, inBlock, f, st, fuel - 1);
      var r := ExecBlock(body, u, f, fuel - 1);
      if r.Done? && r.outcome.Normal? {
        var t := FrameAfter(body, u, names, inBlock, f, st, fuel - 1);
        WhileRuns(condition, body, u, names, inBlock, r.frame, t, fuel - 1);
      }
    }
  }

  lemma {:induction false} RepeatRuns(body: seq<Statement>, until: Expr, u: Unit, names: Naming, inBlock: bool,
      f: Frame, st: Store, fuel: nat)
    requires Ready(u, f, st, names) && HasMeaning(until, u, TBool) && Total(until)
    requires SupportedBlock(body, u, inBlock) && NeverFaults(body, u)
    ensures !ExecRepeat(body, until, u, f, fuel).Fault?
    decreases u, fuel, body, 1
  {
    hide Ready, HasMeaning, Eval, Total, ExecBlock, SupportedBlock, NeverFaults;
    if fuel == 0 {
    } else {
      BlockRuns(body, u, names, inBlock, f, st, fuel - 1);
      var r := ExecBlock(body, u, f, fuel - 1);
      if r.Done? && r.outcome.Normal? {
        var t := FrameAfter(body, u, names, inBlock, f, st, fuel - 1);
        TotalIs(until, u, r.frame, t, names, TBool);
        RepeatRuns(body, until, u, names, inBlock, r.frame, t, fuel - 1);
      }
    }
  }

  lemma {:induction false} CallRuns(s: Statement, u: Unit, names: Naming, inBlock: bool, f: Frame, st: Store, fuel: nat)
    requires s.FbCall?
    requires Ready(u, f, st, names) && SupportedStatement(s, u, inBlock) && StatementNeverFaults(s, u)
    ensures !Exec(s, u, f, fuel).Fault?
    decreases u, fuel, s, 1
  {
    hide Distinct, Holds, Supported, TypeOf, Prints, Total, ExecBlock, SupportedBlock, NeverFaults,
         SupportedArguments, IsFrame, ExecCBlock, LowerInputs, BindInputs, FrameOf, Merge, CopyInOuts, CopyOutputs;
    var instance, args := s.instance, s.arguments;
    var block, inner := BlockOf(u, instance), Under(names, instance);
    InputsBind(args, 0, block, instance, u, f, inBlock);
    var g := BindInputs(args, 0, block, instance, f).value;
    InputsMean(args, 0, block, instance, u, f, st, names, map[], fuel, inBlock);
    var st1 := ExecCBlock(LowerInputs(args, 0, block, instance, u, names), st, map[], fuel).store;
    InstanceIsRepresented(u, g, st1, names, instance);
    UnderIsDistinct(u, names, instance);
    assert SupportedInstances(block) && SupportedBlock(block.body, block, true);
    BlockRuns(block.body, block, inner, true, FrameOf(g, instance), st1, fuel);
  }

  // ----- a step of zero -----

  lemma {:induction false} ZeroRounds(control: Path, bound: Expr, last: int, body: seq<Statement>, u: Unit,
      names: Naming, inBlock: bool, f: Frame, st: Store, fuel: nat)
    requires Ready(u, f, st, names) && SupportedBlock(body, u, inBlock) && NeverFaults(body, u)
    requires StableBound(bound, body, control, u) && ReadsIn(bound, f) && Eval(bound, f) == Some(VInt(last))
    requires !BlockWrites(body, u, control) && control in f && f[control].VInt? && Fits(f[control].n, INT64)
    ensures !ReevaluateFor(control, bound, 0, body, u, f, fuel).Fault?
    decreases fuel
  {
    hide Ready, ExecBlock, SupportedBlock, NeverFaults, BlockWrites, StableBound, Eval, ReadsIn;
    if fuel == 0 {
    } else {
      BlockRuns(body, u, names, inBlock, f, st, fuel - 1);
      var r := ExecBlock(body, u, f, fuel - 1);
      if r.Done? && r.outcome.Normal? {
        BlockKeeps(body, u, f, fuel - 1, control);
        BoundKept(bound, body, control, u, f, fuel - 1, f[control]);
        assert r.frame[control := f[control]] == r.frame;
        var t := FrameAfter(body, u, names, inBlock, f, st, fuel - 1);
        ZeroRounds(control, bound, last, body, u, names, inBlock, r.frame, t, fuel - 1);
      }
    }
  }

  lemma ZeroStepNeverFaults(s: Statement, u: Unit, names: Naming, inBlock: bool, f: Frame, st: Store, fuel: nat,
      first: int, last: int)
    requires s.For? && Ready(u, f, st, names) && SupportedStatement(s, u, inBlock) && NeverFaults(s.body, u)
    requires s.step.Some? && Eval(s.step.value, f) == Some(VInt(0))
    requires Eval(s.first, f) == Some(VInt(first)) && Fits(first, INT64) && Eval(s.bound, f) == Some(VInt(last))
    requires !BlockWrites(s.body, u, [s.control])
    ensures !EmittedFor(s, u, f, fuel).Fault?
  {
    hide Distinct, SupportedInstances, FieldsOf, Holds, Supported, TypeOf, Eval, ReevaluateFor, IsFrame,
         SupportedBlock, BlockWrites, NeverFaults;
    var control := [s.control];
    NumberIn(control, u, f, st, names);
    ReadsAreIn(s.bound, u, f);
    AssignedField(control, VInt(first), u, f, st, names);
    var g := f[control := VInt(first)];
    EvalSame(s.bound, f, g);
    assert ReadsIn(s.bound, g) by { ReadsAreIn(s.bound, u, g); }
    ZeroRounds(control, s.bound, last, s.body, u, names, inBlock, g, st[names(control) := VInt(first)], fuel);
  }

  lemma NoRounds(s: Statement, u: Unit, names: Naming, cx: Context, f: Frame, st: Store, locals: Locals)
    requires s.For? && Ready(u, f, st, names) && SupportedStatement(s, u, cx.Body?)
    requires s.step.Some? && Eval(s.step.value, f) == Some(VInt(0)) && Eval(s.first, f).Some?
    ensures ExecCBlock(Lower(s, u, names, cx), st, locals, 0).COutOfFuel?
  {
    hide Represents, Distinct, SupportedInstances, Supported, TypeOf, Eval, Lower, ExecCBlock, SupportedBlock,
         StableBound;
    EmittedForMeans(s, u, names, cx, f, st, locals, 0);
  }

  // Over a body that cannot fault, write the control variable or leave the loop,
  // the C of a FOR statement with a step of zero runs on, however many rounds it
  // is given, exactly when the first value is not past the bound.
  lemma ZeroStepRunsOn(s: Statement, u: Unit, names: Naming, cx: Context, f: Frame, st: Store, locals: Locals,
      first: int, last: int)
    requires s.For? && Ready(u, f, st, names) && SupportedStatement(s, u, cx.Body?) && NeverFaults(s.body, u)
    requires s.step.Some? && Eval(s.step.value, f) == Some(VInt(0))
    requires Eval(s.first, f) == Some(VInt(first)) && Fits(first, INT64) && Eval(s.bound, f) == Some(VInt(last))
    requires !BlockWrites(s.body, u, [s.control]) && !BlockLeaves(s.body, Exited) && !BlockLeaves(s.body, Returned)
    ensures (forall fuel: nat :: ExecCBlock(Lower(s, u, names, cx), st, locals, fuel).COutOfFuel?) <==> first <= last
  {
    hide Ready, SupportedStatement, NeverFaults, Eval, BlockWrites, BlockLeaves, EmittedFor, ExecCBlock, Lower;
    forall fuel: nat | fuel > 0
      ensures ExecCBlock(Lower(s, u, names, cx), st, locals, fuel).COutOfFuel? <==> first <= last
    {
      ZeroStepNeverFaults(s, u, names, cx.Body?, f, st, fuel, first, last);
      ZeroStepLoops(s, u, names, cx, f, st, locals, fuel, first, last);
    }
    NoRounds(s, u, names, cx, f, st, locals);
    assert ExecCBlock(Lower(s, u, names, cx), st, locals, 1).COutOfFuel? <==> first <= last;
  }
}
