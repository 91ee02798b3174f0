/**
 * A run of Structured Text leaves alone every variable its statements do not
 * write, at any depth of calls, and ends with EXIT or RETURN only where one can
 * be reached.
 */
module Untouched {
  import opened Wrappers
  import opened Values
  import opened StructuredText
  import opened Lowering

  lemma {:induction false} EvalSame(e: Expr, f: Frame, g: Frame)
    requires forall p <- Reads(e) :: p in f && p in g && f[p] == g[p]
    ensures Eval(e, f) == Eval(e, g)
  {
    match e
    case Unary(_, a) => EvalSame(a, f, g);
    case Binary(_, l, r) =>
      EvalSame(l, f, g);
      EvalSame(r, f, g);
    case Call(_, args) => EvalAllSame(args, f, g);
    case Mux(k, inputs) =>
      EvalSame(k, f, g);
      EvalAllSame(inputs, f, g);
    case _ =>
  }

  lemma {:induction false} EvalAllSame(es: seq<Expr>, f: Frame, g: Frame)
    requires forall p <- ReadsAll(es) :: p in f && p in g && f[p] == g[p]
    ensures EvalAll(es, f) == EvalAll(es, g)
  {
    if es == [] {
    } else {
      EvalSame(es[0], f, g);
      EvalAllSame(es[1..], f, g);
    }
  }

  ghost predicate Keeps(r: Run, f: Frame, p: Path) {
    r.Done? && p in f ==> p in r.frame && r.frame[p] == f[p]
  }

  lemma {:induction false} BlockKeeps(ss: seq<Statement>, u: Unit, f: Frame, fuel: nat, p: Path)
    requires !BlockWrites(ss, u, p)
    ensures Keeps(ExecBlock(ss, u, f, fuel), f, p)
    decreases u, fuel, ss
  {
    if ss == [] {
    } else {
      StatementKeeps(ss[0], u, f, fuel, p);
      var r := Exec(ss[0], u, f, fuel);
      assert !BlockWrites(ss[1..], u, p);
      if r.Done? { BlockKeeps(ss[1..], u, r.frame, fuel, p); }
    }
  }

  lemma {:induction false} StatementKeeps(s: Statement, u: Unit, f: Frame, fuel: nat, p: Path)
    requires !Writes(s, u, p)
    ensures Keeps(Exec(s, u, f, fuel), f, p)
    decreases u, fuel, s
  {
    match s
    case If(_, _) => IfKeeps(s, 0, u, f, fuel, p);
    case CaseOf(selector, _, _) =>
      if Eval(selector, f).Some? { CaseKeeps(s, Eval(selector, f).value, 0, u, f, fuel, p); }
    case For(control, first, bound, step, body) =>
      var from, last := Eval(first, f), Eval(bound, f);
      var stride := if step.Some? then Eval(step.value, f) else Some(VInt(1));
      if from.Some? && last.Some? && stride.Some? && last.value.VInt? && stride.value.VInt? {
        ForKeeps([control], last.value.n, stride.value.n, body, u, f[[control] := from.value], fuel, p);
      }
    case While(condition, body) => WhileKeeps(condition, body, u, f, fuel, p);
    case Repeat(body, until) => RepeatKeeps(body, until, u, f, fuel, p);
    case FbCall(instance, arguments) =>
      if HasInstance(u, instance) {
        var block := BlockOf(u, instance);
        BindKeeps(arguments, 0, block, instance, f, p);
        var called := BindInputs(arguments, 0, block, instance, f);
        if called.Some? {
          var r := ExecBlock(block.body, block, FrameOf(called.value, instance), fuel);
          if r.Done? {
            var back := Merge(called.value, instance, r.frame);
            InOutsKeep(arguments, 0, block, instance, back, p);
            OutputsKeep(arguments, instance, CopyInOuts(arguments, 0, block, instance, back), p);
          }
        }
      }
    case _ =>
  }

  lemma {:induction false} IfKeeps(s: Statement, k: nat, u: Unit, f: Frame, fuel: nat, p: Path)
    requires s.If? && k <= |s.branches| && !Writes(s, u, p)
    ensures Keeps(ExecIf(s, k, u, f, fuel), f, p)
    decreases u, fuel, s, |s.branches| - k
  {
    if k == |s.branches| {
      BlockKeeps(s.otherwise, u, f, fuel, p);
    } else {
      assert s.branches[k] in s.branches;
      BlockKeeps(s.branches[k].body, u, f, fuel, p);
      IfKeeps(s, k + 1, u, f, fuel, p);
    }
  }

  lemma {:induction false} CaseKeeps(s: Statement, v: Value, k: nat, u: Unit, f: Frame, fuel: nat, p: Path)
    requires s.CaseOf? && k <= |s.cases| && !Writes(s, u, p)
    ensures Keeps(ExecCase(s, v, k, u, f, fuel), f, p)
    decreases u, fuel, s, |s.cases| - k
  {
    if k == |s.cases| {
      BlockKeeps(s.otherwise, u, f, fuel, p);
    } else {
      assert s.cases[k] in s.cases;
      BlockKeeps(s.cases[k].body, u, f, fuel, p);
      CaseKeeps(s, v, k + 1, u, f, fuel, p);
    }
  }

  lemma {:induction false} ForKeeps(control: Path, last: int, step: int, body: seq<Statement>, u: Unit, f: Frame,
      fuel: nat, p: Path)
    requires p != control && !BlockWrites(body, u, p)
    ensures Keeps(ExecFor(control, last, step, body, u, f, fuel), f, p)
    decreases u, fuel, body, 0
  {
    if fuel == 0 {
    } else {
      BlockKeeps(body, u, f, fuel - 1, p);
      var r := ExecBlock(body, u, f, fuel - 1);
      if r.Done? && control in r.frame && r.frame[control].VInt? {
        var next := Arith(Add, r.frame[control].n, step, INT64);
        if next.Some? { ForKeeps(control, last, step, body, u, r.frame[control := VInt(next.value)], fuel - 1, p); }
      }
    }
  }

  lemma {:induction false} WhileKeeps(condition: Expr, body: seq<Statement>, u: Unit, f: Frame, fuel: nat, p: Path)
    requires !BlockWrites(body, u, p)
    ensures Keeps(ExecWhile(condition, body, u, f, fuel), f, p)
    decreases u, fuel, body, 0
  {
    if fuel == 0 {
    } else {
      BlockKeeps(body, u, f, fuel - 1, p);
      var r := ExecBlock(body, u, f, fuel - 1);
      if r.Done? { WhileKeeps(condition, body, u, r.frame, fuel - 1, p); }
    }
  }

  lemma {:induction false} RepeatKeeps(body: seq<Statement>, until: Expr, u: Unit, f: Frame, fuel: nat, p: Path)
    requires !BlockWrites(body, u, p)
    ensures Keeps(ExecRepeat(body, until, u, f, fuel), f, p)
    decreases u, fuel, body, 0
  {
    if fuel == 0 {
    } else {
      BlockKeeps(body, u, f, fuel - 1, p);
      var r := ExecBlock(body, u, f, fuel - 1);
      if r.Done? { RepeatKeeps(body, until, u, r.frame, fuel - 1, p); }
    }
  }

  lemma {:induction false} BindKeeps(args: seq<Argument>, position: nat, block: Unit, instance: Name, f: Frame, p: Path)
    requires !(|p| > 1 && p[0] == instance)
    ensures var g := BindInputs(args, position, block, instance, f);
      g.Some? && p in f ==> p in g.value && g.value[p] == f[p]
    decreases |args|
  {
    if args == [] {
    } else {
      var t := InputTarget(InputFields(block.vars), args[0], position);
      if t.None? {
        BindKeeps(args[1..], NextPosition(args[0], position), block, instance, f, p);
      } else {
        var v := Eval(args[0].expr, f);
        if v.Some? {
          var g := f[[instance, t.value.name] := v.value];
          BindKeeps(args[1..], NextPosition(args[0], position), block, instance, g, p);
        }
      }
    }
  }

  lemma {:induction false} InOutsKeep(args: seq<Argument>, position: nat, block: Unit, instance: Name, f: Frame,
      p: Path)
    requires !InOutWrites(args, position, block, p)
    ensures var g := CopyInOuts(args, position, block, instance, f); p in f ==> p in g && g[p] == f[p]
    decreases |args|
  {
    if args == [] {
    } else {
      var t := InputTarget(InputFields(block.vars), args[0], position);
      var g :=
        if t.Some? && t.value.kind.VarInOut? && args[0].expr.Variable? && [instance, t.value.name] in f
        then f[args[0].expr.path := f[[instance, t.value.name]]] else f;
      InOutsKeep(args[1..], NextPosition(args[0], position), block, instance, g, p);
    }
  }

  lemma {:induction false} OutputsKeep(args: seq<Argument>, instance: Name, f: Frame, p: Path)
    requires forall a <- args :: !(a.Output? && a.target == p)
    ensures var g := CopyOutputs(args, instance, f); p in f ==> p in g && g[p] == f[p]
    decreases |args|
  {
    if args == [] {
    } else {
      var g :=
        if args[0].Output? && [instance, args[0].field] in f
        then f[args[0].target := f[[instance, args[0].field]]] else f;
      OutputsKeep(args[1..], instance, g, p);
    }
  }

  // ----- outcomes -----

  ghost predicate MayEnd(r: Run, ss: seq<Statement>) {
    r.Done? && !r.outcome.Normal? ==> BlockLeaves(ss, r.outcome)
  }

  lemma {:induction false} OutcomesLeave(ss: seq<Statement>, u: Unit, f: Frame, fuel: nat)
    ensures MayEnd(ExecBlock(ss, u, f, fuel), ss)
    decreases u, fuel, ss
  {
    if ss == [] {
    } else {
      assert ss[0] in ss;
      OutcomeLeaves(ss[0], u, f, fuel);
      var r := Exec(ss[0], u, f, fuel);
      if r.Done? { OutcomesLeave(ss[1..], u, r.frame, fuel); }
    }
  }

  lemma {:induction false} OutcomeLeaves(s: Statement, u: Unit, f: Frame, fuel: nat)
    ensures var r := Exec(s, u, f, fuel); r.Done? && !r.outcome.Normal? ==> Leaves(s, r.outcome)
    decreases u, fuel, s
  {
    match s
    case If(_, _) => IfLeaves(s, 0, u, f, fuel);
    case CaseOf(selector, _, _) =>
      if Eval(selector, f).Some? { CaseLeaves(s, Eval(selector, f).value, 0, u, f, fuel); }
    case For(control, first, bound, step, body) =>
      var from, last := Eval(first, f), Eval(bound, f);
      var stride := if step.Some? then Eval(step.value, f) else Some(VInt(1));
      if from.Some? && last.Some? && stride.Some? && last.value.VInt? && stride.value.VInt? {
        ForLeaves([control], last.value.n, stride.value.n, body, u, f[[control] := from.value], fuel);
      }
    case While(condition, body) => WhileLeaves(condition, body, u, f, fuel);
    case Repeat(body, until) => RepeatLeaves(body, until, u, f, fuel);
    case _ =>
  }

  lemma {:induction false} IfLeaves(s: Statement, k: nat, u: Unit, f: Frame, fuel: nat)
    requires s.If? && k <= |s.branches|
    ensures var r := ExecIf(s, k, u, f, fuel); r.Done? && !r.outcome.Normal? ==> Leaves(s, r.outcome)
    decreases u, fuel, s, |s.branches| - k
  {
    if k == |s.branches| {
      OutcomesLeave(s.otherwise, u, f, fuel);
    } else {
      assert s.branches[k] in s.branches;
      OutcomesLeave(s.branches[k].body, u, f, fuel);
      IfLeaves(s, k + 1, u, f, fuel);
    }
  }

  lemma {:induction false} CaseLeaves(s: Statement, v: Value, k: nat, u: Unit, f: Frame, fuel: nat)
    requires s.CaseOf? && k <= |s.cases|
    ensures var r := ExecCase(s, v, k, u, f, fuel); r.Done? && !r.outcome.Normal? ==> Leaves(s, r.outcome)
    decreases u, fuel, s, |s.cases| - k
  {
    if k == |s.cases| {
      OutcomesLeave(s.otherwise, u, f, fuel);
    } else {
      assert s.cases[k] in s.cases;
      OutcomesLeave(s.cases[k].body, u, f, fuel);
      CaseLeaves(s, v, k + 1, u, f, fuel);
    }
  }

  // A loop ends with RETURN or normally.
  ghost predicate LoopEnds(r: Run, body: seq<Statement>) {
    r.Done? && !r.outcome.Normal? ==> r.outcome.Returned? && BlockLeaves(body, r.outcome)
  }

  lemma {:induction false} ForLeaves(control: Path, last: int, step: int, body: seq<Statement>, u: Unit, f: Frame,
      fuel: nat)
    ensures LoopEnds(ExecFor(control, last, step, body, u, f, fuel), body)
    decreases u, fuel, body, 0
  {
    if fuel == 0 {
    } else {
      OutcomesLeave(body, u, f, fuel - 1);
      var r := ExecBlock(body, u, f, fuel - 1);
      if r.Done? && control in r.frame && r.frame[control].VInt? {
        var next := Arith(Add, r.frame[control].n, step, INT64);
        if next.Some? { ForLeaves(control, last, step, body, u, r.frame[control := VInt(next.value)], fuel - 1); }
      }
    }
  }

  lemma {:induction false} WhileLeaves(condition: Expr, body: seq<Statement>, u: Unit, f: Frame, fuel: nat)
    ensures LoopEnds(ExecWhile(condition, body, u, f, fuel), body)
    decreases u, fuel, body, 0
  {
    if fuel == 0 {
    } else {
      OutcomesLeave(body, u, f, fuel - 1);
      var r := ExecBlock(body, u, f, fuel - 1);
      if r.Done? { WhileLeaves(condition, body, u, r.frame, fuel - 1); }
    }
  }

  lemma {:induction false} RepeatLeaves(body: seq<Statement>, until: Expr, u: Unit, f: Frame, fuel: nat)
    ensures LoopEnds(ExecRepeat(body, until, u, f, fuel), body)
    decreases u, fuel, body, 0
  {
    if fuel == 0 {
    } else {
      OutcomesLeave(body, u, f, fuel - 1);
      var r := ExecBlock(body, u, f, fuel - 1);
      if r.Done? { RepeatLeaves(body, until, u, r.frame, fuel - 1); }
    }
  }
}
