/**
 * The rounds of the FOR statement, in three forms: with the bound taken once,
 * as Structured Text means it; with the bound evaluated again in every round, as
 * the emitted C does; and with the counter held aside, as the interpreter does.
 */
module ForControl {
  import opened Wrappers
  import opened Values
  import opened StructuredText
  import opened Lowering
  import opened Untouched

  predicate GoesOn(value: int, last: int, step: int) {
    if step >= 0 then value <= last else value >= last
  }

  // The emitted loop. A step of zero is a step upwards.
  function ReevaluateFor(control: Path, bound: Expr, step: int, body: seq<Statement>, u: Unit, f: Frame,
      fuel: nat): Run
    decreases fuel
  {
    if fuel == 0 then OutOfFuel
    else
      var last := Eval(bound, f);
      if control !in f || f[control].VBool? || last.None? || last.value.VBool? then Fault
      else if GoesOn(f[control].n, last.value.n, step) then
        var r := ExecBlock(body, u, f, fuel - 1);
        if r.Done? && r.outcome.Normal? then
          if control !in r.frame || r.frame[control].VBool? then Fault
          else
            var next := Arith(Add, r.frame[control].n, step, INT64);
            if next.None? then Fault
            else ReevaluateFor(control, bound, step, body, u, r.frame[control := VInt(next.value)], fuel - 1)
        else if r.Done? && r.outcome.Exited? then Done(r.frame, Normal)
        else r
      else Done(f, Normal)
  }

  // The emitted statement.
  function EmittedFor(s: Statement, u: Unit, f: Frame, fuel: nat): Run
    requires s.For?
  {
    var from := Eval(s.first, f);
    var step := if s.step.Some? then Eval(s.step.value, f) else Some(VInt(1));
    if from.None? || step.None? || step.value.VBool? then Fault
    else ReevaluateFor([s.control], s.bound, step.value.n, s.body, u, f[[s.control] := from.value], fuel)
  }

  // The interpreter's loop: the counter is its own, and the control variable is
  // set from it at the start of each round.
  function InterpretFor(control: Path, value: int, last: int, step: int, body: seq<Statement>, u: Unit, f: Frame,
      fuel: nat): Run
    decreases fuel
  {
    if fuel == 0 then OutOfFuel
    else if if step > 0 then value <= last else value >= last then
      var r := ExecBlock(body, u, f[control := VInt(value)], fuel - 1);
      if r.Done? && r.outcome.Normal? then
        var next := Arith(Add, value, step, INT64);
        if next.None? then Fault else InterpretFor(control, next.value, last, step, body, u, r.frame, fuel - 1)
      else if r.Done? && r.outcome.Exited? then Done(r.frame, Normal)
      else r
    else Done(f, Normal)
  }

  // ----- a bound that keeps its value -----

  ghost predicate ReadsIn(e: Expr, f: Frame) {
    forall p <- Reads(e) :: p in f
  }

  // The bound's value, however often it is evaluated.
  lemma BoundKept(bound: Expr, body: seq<Statement>, control: Path, u: Unit, f: Frame, fuel: nat, v: Value)
    requires ReadsIn(bound, f) && StableBound(bound, body, control, u) && ExecBlock(body, u, f, fuel).Done?
    ensures var g := ExecBlock(body, u, f, fuel).frame[control := v];
      Eval(bound, g) == Eval(bound, f) && ReadsIn(bound, g)
  {
    hide ExecBlock, BlockWrites, Eval;
    var g := ExecBlock(body, u, f, fuel).frame[control := v];
    forall p <- Reads(bound) ensures p in f && p in g && f[p] == g[p] { BlockKeeps(body, u, f, fuel, p); }
    EvalSame(bound, f, g);
  }

  lemma {:induction false} StableRounds(control: Path, bound: Expr, last: int, step: int, body: seq<Statement>,
      u: Unit, f: Frame, fuel: nat)
    requires StableBound(bound, body, control, u) && ReadsIn(bound, f) && step != 0
        && Eval(bound, f) == Some(VInt(last))
    ensures ReevaluateFor(control, bound, step, body, u, f, fuel) == ExecFor(control, last, step, body, u, f, fuel)
    decreases fuel
  {
    hide ExecBlock, StableBound, Eval, ReadsIn;
    if fuel == 0 {
    } else {
      var r := ExecBlock(body, u, f, fuel - 1);
      if r.Done? && r.outcome.Normal? && control in r.frame && r.frame[control].VInt? {
        var next := Arith(Add, r.frame[control].n, step, INT64);
        if next.Some? {
          BoundKept(bound, body, control, u, f, fuel - 1, VInt(next.value));
          StableRounds(control, bound, last, step, body, u, r.frame[control := VInt(next.value)], fuel - 1);
        }
      }
    }
  }

  // Evaluating the bound again makes no difference when it reads neither the
  // control variable nor anything that the body writes.
  lemma StableForIsEmitted(s: Statement, u: Unit, f: Frame, fuel: nat)
    requires s.For? && StableBound(s.bound, s.body, [s.control], u) && ReadsIn(s.bound, f)
    ensures Exec(s, u, f, fuel).Fault? || Exec(s, u, f, fuel) == EmittedFor(s, u, f, fuel)
  {
    hide ExecFor, ReevaluateFor, Eval, BlockWrites;
    var from, last := Eval(s.first, f), Eval(s.bound, f);
    var step := if s.step.Some? then Eval(s.step.value, f) else Some(VInt(1));
    if !Exec(s, u, f, fuel).Fault? {
      var g := f[[s.control] := from.value];
      EvalSame(s.bound, f, g);
      StableRounds([s.control], s.bound, last.value.n, step.value.n, s.body, u, g, fuel);
    }
  }

  // ----- a bound that changes -----

  // The tests with the bound taken once and taken again agree in every round.
  predicate TestsAgree(control: Path, bound: Expr, last: int, step: int, body: seq<Statement>, u: Unit, f: Frame,
      fuel: nat)
    decreases fuel
  {
    fuel == 0 || control !in f || f[control].VBool? || Eval(bound, f).None? || Eval(bound, f).value.VBool?
    || (GoesOn(f[control].n, last, step) == GoesOn(f[control].n, Eval(bound, f).value.n, step)
        && (GoesOn(f[control].n, last, step) ==>
              var r := ExecBlock(body, u, f, fuel - 1);
              r.Done? && r.outcome.Normal? && control in r.frame && r.frame[control].VInt?
              && Arith(Add, r.frame[control].n, step, INT64).Some? ==>
                TestsAgree(control, bound, last, step, body, u,
                           r.frame[control := VInt(Arith(Add, r.frame[control].n, step, INT64).value)], fuel - 1)))
  }

  // How far a finished loop has counted.
  ghost predicate Counted(r: Run, control: Path, value: int, step: int, rounds: bool) {
    r.Done? ==> control in r.frame && r.frame[control].VInt?
                && (if rounds then (r.frame[control].n - value) * step > 0
                    else (r.frame[control].n - value) * step >= 0)
  }

  lemma Further(a: int, b: int, step: int)
    requires step != 0 && (b - (a + step)) * step >= 0
    ensures (b - a) * step > 0
  {
    assert (b - a) * step == (b - (a + step)) * step + step * step;
    assert step * step > 0;
  }

  lemma {:induction false} ForCounts(control: Path, last: int, step: int, body: seq<Statement>, u: Unit, f: Frame,
      fuel: nat)
    requires !BlockWrites(body, u, control) && !BlockLeaves(body, Exited) && !BlockLeaves(body, Returned)
    requires step != 0 && control in f && f[control].VInt?
    ensures Counted(ExecFor(control, last, step, body, u, f, fuel), control, f[control].n, step,
                    GoesOn(f[control].n, last, step))
    decreases fuel
  {
    hide ExecBlock, BlockWrites, BlockLeaves;
    if fuel > 0 && GoesOn(f[control].n, last, step) {
      var r := ExecBlock(body, u, f, fuel - 1);
      BlockKeeps(body, u, f, fuel - 1, control);
      OutcomesLeave(body, u, f, fuel - 1);
      var next := Arith(Add, f[control].n, step, INT64);
      if r.Done? && next.Some? {
        var g := r.frame[control := VInt(next.value)];
        ForCounts(control, last, step, body, u, g, fuel - 1);
        var rest := ExecFor(control, last, step, body, u, g, fuel - 1);
        if rest.Done? { Further(f[control].n, rest.frame[control].n, step); }
      }
    }
  }

  lemma {:induction false} ReevaluateCounts(control: Path, bound: Expr, step: int, body: seq<Statement>, u: Unit,
      f: Frame, fuel: nat)
    requires !BlockWrites(body, u, control) && !BlockLeaves(body, Exited) && !BlockLeaves(body, Returned)
    requires step != 0 && control in f && f[control].VInt? && Eval(bound, f).Some? && Eval(bound, f).value.VInt?
    ensures Counted(ReevaluateFor(control, bound, step, body, u, f, fuel), control, f[control].n, step,
                    GoesOn(f[control].n, Eval(bound, f).value.n, step))
    decreases fuel
  {
    hide ExecBlock, BlockWrites, BlockLeaves, Eval;
    if fuel > 0 && GoesOn(f[control].n, Eval(bound, f).value.n, step) {
      var r := ExecBlock(body, u, f, fuel - 1);
      BlockKeeps(body, u, f, fuel - 1, control);
      OutcomesLeave(body, u, f, fuel - 1);
      var next := Arith(Add, f[control].n, step, INT64);
      if r.Done? && next.Some? {
        var g := r.frame[control := VInt(next.value)];
        var rest := ReevaluateFor(control, bound, step, body, u, g, fuel - 1);
        if rest.Done? {
          ReevaluateCounts(control, bound, step, body, u, g, fuel - 1);
          Further(f[control].n, rest.frame[control].n, step);
        }
      }
    }
  }

  // Two finished loops over a body that keeps the control variable and runs to
  // its end leave the same frame exactly when their tests agreed in every round.
  lemma {:induction false} SameWhenTestsAgree(control: Path, bound: Expr, last: int, step: int, body: seq<Statement>,
      u: Unit, f: Frame, fuel: nat)
    requires !BlockWrites(body, u, control) && !BlockLeaves(body, Exited) && !BlockLeaves(body, Returned) && step != 0
    requires ExecFor(control, last, step, body, u, f, fuel).Done?
    requires ReevaluateFor(control, bound, step, body, u, f, fuel).Done?
    ensures ExecFor(control, last, step, body, u, f, fuel) == ReevaluateFor(control, bound, step, body, u, f, fuel)
            <==> TestsAgree(control, bound, last, step, body, u, f, fuel)
    decreases fuel
  {
    hide ExecBlock, BlockWrites, BlockLeaves, Eval;
    var v, now := f[control].n, Eval(bound, f).value.n;
    if GoesOn(v, last, step) && GoesOn(v, now, step) {
      BlockKeeps(body, u, f, fuel - 1, control);
      OutcomesLeave(body, u, f, fuel - 1);
      var r := ExecBlock(body, u, f, fuel - 1);
      SameWhenTestsAgree(control, bound, last, step, body, u, r.frame[control := VInt(v + step)], fuel - 1);
    } else {
      ForCounts(control, last, step, body, u, f, fuel);
      ReevaluateCounts(control, bound, step, body, u, f, fuel);
    }
  }

  // FOR i := 1 TO n DO n := n - 1, from n = 2, takes two rounds with the bound
  // taken once and leaves 0 in n; taken again, one round and 1.
  lemma ChangingBound(u: Unit, f: Frame, control: Path, n: Path)
    requires control != n && control in f && f[control] == VInt(1) && n in f && f[n] == VInt(2)
    ensures var body := [Assignment(n, Binary(Sub, Variable(n), Literal(1)))];
      var a, b := ExecFor(control, 2, 1, body, u, f, 3), ReevaluateFor(control, Variable(n), 1, body, u, f, 3);
      && a.Done? && n in a.frame && a.frame[n] == VInt(0)
      && b.Done? && n in b.frame && b.frame[n] == VInt(1)
      && !TestsAgree(control, Variable(n), 2, 1, body, u, f, 3)
  {
    var s := Assignment(n, Binary(Sub, Variable(n), Literal(1)));
    Decrement(u, f, n, 2);
    var g := f[n := VInt(1)][control := VInt(2)];
    Decrement(u, g, n, 1);
    var h := g[n := VInt(0)][control := VInt(3)];
    hide ExecBlock;
    assert ExecFor(control, 2, 1, [s], u, f, 3) == ExecFor(control, 2, 1, [s], u, g, 2);
    assert ExecFor(control, 2, 1, [s], u, g, 2) == ExecFor(control, 2, 1, [s], u, h, 1) == Done(h, Normal);
    assert ReevaluateFor(control, Variable(n), 1, [s], u, f, 3)
           == ReevaluateFor(control, Variable(n), 1, [s], u, g, 2) == Done(g, Normal);
    assert !Writes(s, u, control) && !Leaves(s, Exited) && !Leaves(s, Returned);
    SameWhenTestsAgree(control, Variable(n), 2, 1, [s], u, f, 3);
  }

  lemma Decrement(u: Unit, f: Frame, n: Path, v: int)
    requires n in f && f[n] == VInt(v) && 0 < v < 3
    ensures forall fuel: nat ::
      ExecBlock([Assignment(n, Binary(Sub, Variable(n), Literal(1)))], u, f, fuel) == Done(f[n := VInt(v - 1)], Normal)
  {
    var s := Assignment(n, Binary(Sub, Variable(n), Literal(1)));
    assert Eval(s.value, f) == Some(VInt(v - 1));
    assert [s][1..] == [];
    forall fuel: nat ensures ExecBlock([s], u, f, fuel) == Done(f[n := VInt(v - 1)], Normal) {
      assert Exec(s, u, f, fuel) == Done(f[n := VInt(v - 1)], Normal);
    }
  }

  // ----- a step of zero -----

  // With a step of zero the emitted loop does nothing when the first value is
  // past the bound, and never ends otherwise.
  lemma {:induction false} ZeroStep(control: Path, bound: Expr, last: int, body: seq<Statement>, u: Unit, f: Frame,
      fuel: nat)
    requires StableBound(bound, body, control, u) && ReadsIn(bound, f) && Eval(bound, f) == Some(VInt(last))
    requires !BlockWrites(body, u, control) && !BlockLeaves(body, Exited) && !BlockLeaves(body, Returned)
    requires control in f && f[control].VInt? && Fits(f[control].n, INT64)
    ensures var r := ReevaluateFor(control, bound, 0, body, u, f, fuel);
      if f[control].n <= last then !r.Done? else fuel > 0 ==> r == Done(f, Normal)
    decreases fuel
  {
    hide ExecBlock, BlockWrites, BlockLeaves, StableBound, Eval, ReadsIn;
    if fuel > 0 && f[control].n <= last {
      BlockKeeps(body, u, f, fuel - 1, control);
      OutcomesLeave(body, u, f, fuel - 1);
      var r := ExecBlock(body, u, f, fuel - 1);
      if r.Done? {
        BoundKept(bound, body, control, u, f, fuel - 1, f[control]);
        ZeroStep(control, bound, last, body, u, r.frame[control := f[control]], fuel - 1);
      }
    }
  }

  // The interpreter reports a step of zero and goes on. The emitted statement
  // leaves the same frame exactly when it has no round to run and the control
  // variable holds the first value already.
  lemma ZeroStepIsSkipped(s: Statement, u: Unit, f: Frame, fuel: nat, first: int, last: int)
    requires s.For? && s.step.Some? && Eval(s.step.value, f) == Some(VInt(0))
    requires Eval(s.first, f) == Some(VInt(first)) && Fits(first, INT64) && Eval(s.bound, f) == Some(VInt(last))
    requires StableBound(s.bound, s.body, [s.control], u) && ReadsIn(s.bound, f) && [s.control] in f
    requires !BlockWrites(s.body, u, [s.control]) && !BlockLeaves(s.body, Exited) && !BlockLeaves(s.body, Returned)
    requires fuel > 0
    ensures EmittedFor(s, u, f, fuel) == Done(f, Normal) <==> first > last && f[[s.control]] == VInt(first)
    ensures EmittedFor(s, u, f, fuel).Done? <==> first > last
  {
    hide BlockWrites, BlockLeaves, ReevaluateFor, Eval;
    var g := f[[s.control] := VInt(first)];
    EvalSame(s.bound, f, g);
    ZeroStep([s.control], s.bound, last, s.body, u, g, fuel);
    assert g == f <==> f[[s.control]] == VInt(first);
  }

  // ----- the control variable -----

  ghost predicate SameBut(f: Frame, g: Frame, control: Path) {
    forall p | p != control :: (p in f <==> p in g) && (p in f ==> f[p] == g[p])
  }

  // If the body leaves the control variable alone, both loops run it in the
  // same rounds on the same frames, and end with the same outcome and frame,
  // the control variable aside.
  lemma {:induction false} LoopsAgree(control: Path, value: int, last: int, step: int, body: seq<Statement>,
      u: Unit, f: Frame, fuel: nat)
    requires !BlockWrites(body, u, control)
    ensures var a := ExecFor(control, last, step, body, u, f[control := VInt(value)], fuel);
      var b := InterpretFor(control, value, last, step, body, u, f, fuel);
      && (a.Fault? <==> b.Fault?) && (a.OutOfFuel? <==> b.OutOfFuel?)
      && (a.Done? ==> a.outcome == b.outcome && SameBut(a.frame, b.frame, control))
    decreases fuel
  {
    hide ExecBlock, BlockWrites;
    if fuel > 0 && if step > 0 then value <= last else value >= last {
      var g := f[control := VInt(value)];
      BlockKeeps(body, u, g, fuel - 1, control);
      var r := ExecBlock(body, u, g, fuel - 1);
      if r.Done? && r.outcome.Normal? {
        var next := Arith(Add, value, step, INT64);
        if next.Some? {
          LoopsAgree(control, next.value, last, step, body, u, r.frame, fuel - 1);
        }
      }
    }
  }

  // Whether a round ends with EXIT or RETURN.
  predicate LeftEarly(control: Path, value: int, last: int, step: int, body: seq<Statement>, u: Unit, f: Frame,
      fuel: nat)
    decreases fuel
  {
    && fuel > 0
    && (if step > 0 then value <= last else value >= last)
    && var r := ExecBlock(body, u, f[control := VInt(value)], fuel - 1);
    && r.Done?
    && (!r.outcome.Normal?
        || (Arith(Add, value, step, INT64).Some?
            && LeftEarly(control, value + step, last, step, body, u, r.frame, fuel - 1)))
  }

  // The control variable after a finished loop: the same in both when EXIT or
  // RETURN ended it; otherwise the C has the first value, where the interpreter
  // has not touched the variable, or one step more than the interpreter.
  lemma {:induction false} FinalControl(control: Path, value: int, last: int, step: int, body: seq<Statement>,
      u: Unit, f: Frame, fuel: nat)
    requires !BlockWrites(body, u, control)
    requires ExecFor(control, last, step, body, u, f[control := VInt(value)], fuel).Done?
    ensures var a := ExecFor(control, last, step, body, u, f[control := VInt(value)], fuel);
      var b := InterpretFor(control, value, last, step, body, u, f, fuel);
      && b.Done?
      && if LeftEarly(control, value, last, step, body, u, f, fuel) then a.frame == b.frame
         else if if step > 0 then value <= last else value >= last then
           && control in a.frame && control in b.frame && a.frame[control].VInt? && b.frame[control].VInt?
           && a.frame[control].n == b.frame[control].n + step
         else a.frame == f[control := VInt(value)] && b.frame == f
    decreases fuel
  {
    hide ExecBlock, BlockWrites;
    if if step > 0 then value <= last else value >= last {
      var g := f[control := VInt(value)];
      BlockKeeps(body, u, g, fuel - 1, control);
      var r := ExecBlock(body, u, g, fuel - 1);
      if r.Done? && r.outcome.Normal? {
        FinalControl(control, value + step, last, step, body, u, r.frame, fuel - 1);
      }
    }
  }

  // No body without EXIT and RETURN ends a loop early.
  lemma {:induction false} NeverLeftEarly(control: Path, value: int, last: int, step: int, body: seq<Statement>,
      u: Unit, f: Frame, fuel: nat)
    requires !BlockLeaves(body, Exited) && !BlockLeaves(body, Returned)
    ensures !LeftEarly(control, value, last, step, body, u, f, fuel)
    decreases fuel
  {
    hide ExecBlock, BlockLeaves;
    if fuel == 0 {
    } else {
      var r := ExecBlock(body, u, f[control := VInt(value)], fuel - 1);
      OutcomesLeave(body, u, f[control := VInt(value)], fuel - 1);
      if r.Done? { NeverLeftEarly(control, value + step, last, step, body, u, r.frame, fuel - 1); }
    }
  }

  // The two final frames are equal exactly when EXIT or RETURN ended the loop,
  // or there was no round and the variable held the first value already. A body
  // without EXIT and RETURN leaves the second case only.
  lemma SameFrameAfterLoop(control: Path, value: int, last: int, step: int, body: seq<Statement>, u: Unit, f: Frame,
      fuel: nat)
    requires !BlockWrites(body, u, control) && step != 0
    requires ExecFor(control, last, step, body, u, f[control := VInt(value)], fuel).Done?
    ensures var a := ExecFor(control, last, step, body, u, f[control := VInt(value)], fuel);
      var b := InterpretFor(control, value, last, step, body, u, f, fuel);
      b.Done? && (a.frame == b.frame <==>
        || LeftEarly(control, value, last, step, body, u, f, fuel)
        || ((if step > 0 then value > last else value < last) && control in f && f[control] == VInt(value)))
    ensures !BlockLeaves(body, Exited) && !BlockLeaves(body, Returned) ==>
      !LeftEarly(control, value, last, step, body, u, f, fuel)
  {
    hide ExecFor, InterpretFor, LeftEarly, BlockWrites, BlockLeaves;
    if !BlockLeaves(body, Exited) && !BlockLeaves(body, Returned) {
      NeverLeftEarly(control, value, last, step, body, u, f, fuel);
    }
    FinalControl(control, value, last, step, body, u, f, fuel);
    assert f[control := VInt(value)] == f <==> control in f && f[control] == VInt(value);
  }
}
