/**
 * The action controller as the scan-cycle interpreter runs it, and when one of
 * its steps is the step of the generated C.
 */
module SfcInterpreter {
  import opened Wrappers
  import opened SfcActions

  predicate NeedsDuration(q: Qualifier) {
    q == L || q == D || q == SD || q == DS || q == SL
  }

  // The first active association that needs a duration.
  function ActiveTimed(inputs: seq<Association>, active: seq<bool>): Option<Association>
    requires |active| == |inputs|
  {
    if inputs == [] then None
    else if active[0] && NeedsDuration(inputs[0].qualifier) then Some(inputs[0])
    else ActiveTimed(inputs[1..], active[1..])
  }

  // The timed part of the interpreter's controller, for at most one active
  // timed association, which is `input`.
  function InterpretTimed(input: Option<Association>, cycle: int, l: Latch): (Latch, bool) {
    if input.None? then (if l.stored then l else l.(elapsed := 0), false)
    else
      var elapsed := l.elapsed + cycle;
      var duration := DurationMs(input.value.duration);
      match input.value.qualifier
      case L => (l.(elapsed := elapsed), elapsed <= duration)
      case D => (l.(elapsed := elapsed), elapsed >= duration)
      case SL => (if l.stored then l else l.(stored := true, elapsed := 0), false)
      case _ => (l.(elapsed := elapsed, stored := l.stored || elapsed >= duration), false)
  }

  // The duration of the active SL association; there may be none.
  function ActiveLimit(input: Option<Association>): int {
    if input.Some? && input.value.qualifier == SL then DurationMs(input.value.duration) else 0
  }

  function InterpreterStep(g: Signals, input: Option<Association>, cycle: int, l0: Latch): (Latch, bool) {
    var l1 := if g.r then l0.(stored := false, elapsed := 0) else l0;
    var untimed := g.n || (g.p && !l1.previous) || (g.hasP0 && !g.p0 && l1.previous);
    var l2 := l1.(previous := g.p || g.p0);
    var l3 := if g.s then l2.(stored := true) else l2;
    var (l4, timed) := InterpretTimed(input, cycle, l3);
    InterpretStored(g, input, cycle, l4, untimed || timed)
  }

  // The stored part: with SL it has the last word.
  function InterpretStored(g: Signals, input: Option<Association>, cycle: int, l: Latch, execute: bool): (Latch, bool) {
    if g.hasSL && l.stored then
      var elapsed := l.elapsed + cycle;
      if elapsed <= ActiveLimit(input) then (l.(elapsed := elapsed), !g.r)
      else (l.(elapsed := elapsed, stored := false), false)
    else (l, (execute || l.stored) && !g.r)
  }

  ghost predicate OneActiveTimer(inputs: seq<Association>, active: seq<bool>)
    requires |active| == |inputs|
  {
    forall i, j :: 0 <= i < j < |inputs| && NeedsDuration(inputs[i].qualifier) && NeedsDuration(inputs[j].qualifier) ==>
      !(active[i] && active[j])
  }

  predicate SameDuration(a: Association, b: Association) {
    NeedsDuration(a.qualifier) && a.qualifier == b.qualifier ==> DurationMs(a.duration) == DurationMs(b.duration)
  }

  // Associations with the same timed qualifier carry the same duration.
  ghost predicate UniformDurations(inputs: seq<Association>) {
    forall i, j :: 0 <= i < j < |inputs| ==> SameDuration(inputs[i], inputs[j])
  }

  lemma {:induction false} NoActiveTimed(inputs: seq<Association>, active: seq<bool>, i: nat)
    requires |active| == |inputs| && ActiveTimed(inputs, active).None? && i < |inputs| && active[i]
    ensures !NeedsDuration(inputs[i].qualifier)
  {
    if i == 0 {
    } else {
      NoActiveTimed(inputs[1..], active[1..], i - 1);
    }
  }

  lemma {:induction false} ActiveTimedIsIt(inputs: seq<Association>, active: seq<bool>) returns (i: nat)
    requires |active| == |inputs| && ActiveTimed(inputs, active).Some?
    ensures i < |inputs| && inputs[i] == ActiveTimed(inputs, active).value && active[i]
        && NeedsDuration(inputs[i].qualifier)
  {
    if active[0] && NeedsDuration(inputs[0].qualifier) {
      i := 0;
    } else {
      var j := ActiveTimedIsIt(inputs[1..], active[1..]);
      i := j + 1;
    }
  }

  lemma {:induction false} FirstDurationUniform(inputs: seq<Association>, i: nat)
    requires UniformDurations(inputs) && i < |inputs| && NeedsDuration(inputs[i].qualifier)
    ensures FirstDuration(inputs, inputs[i].qualifier) == DurationMs(inputs[i].duration)
  {
    if inputs[0].qualifier == inputs[i].qualifier {
      if i > 0 { assert SameDuration(inputs[0], inputs[i]); }
    } else {
      var rest := inputs[1..];
      forall a, b | 0 <= a < b < |rest| ensures SameDuration(rest[a], rest[b]) {
        assert SameDuration(inputs[a + 1], inputs[b + 1]);
      }
      FirstDurationUniform(rest, i - 1);
    }
  }

  // The flags of an action with at most one active timed association.
  ghost predicate FlagsFor(g: Signals, input: Option<Association>) {
    && (input.None? ==> !g.Timed())
    && (input.Some? ==>
          var q := input.value.qualifier;
          && NeedsDuration(q)
          && g.l == (q == L) && g.d == (q == D) && g.sd == (q == SD) && g.ds == (q == DS) && g.sl == (q == SL))
    && (g.sl ==> g.hasSL) && (g.slBeforeLast ==> g.sl)
  }

  lemma FlagsHave(inputs: seq<Association>, active: seq<bool>)
    requires |active| == |inputs| && OneActiveTimer(inputs, active)
    ensures FlagsFor(SignalsOf(inputs, active), ActiveTimed(inputs, active))
  {
    var a := ActiveTimed(inputs, active);
    if a.None? {
      forall i: nat | i < |inputs| && active[i] ensures !NeedsDuration(inputs[i].qualifier) {
        NoActiveTimed(inputs, active, i);
      }
    } else {
      var i := ActiveTimedIsIt(inputs, active);
      forall q | NeedsDuration(q) ensures Any(inputs, active, q) <==> q == a.value.qualifier {
        if j :| 0 <= j < |inputs| && inputs[j].qualifier == q && active[j] {
          if i < j { assert false; }
          if j < i { assert false; }
        }
      }
    }
  }

  // With the duration of the active association, and it the one that C uses.
  ghost predicate SignalsFor(g: Signals, input: Option<Association>) {
    && FlagsFor(g, input)
    && (input.Some? ==>
          DurationMs(input.value.duration)
          == if g.l then g.tL else if g.d then g.tD else if g.sd then g.tSD else if g.ds then g.tDS else g.tSL)
    && g.tSL >= 0
  }

  // Without SL, with at most one timed association active and one duration for
  // each timed qualifier, generated C and interpreter take the same step.
  lemma ActionParity(inputs: seq<Association>, active: seq<bool>, cycle: int, l: Latch)
    requires |active| == |inputs| && !Has(inputs, SL)
    requires OneActiveTimer(inputs, active) && UniformDurations(inputs)
    ensures StepsAgree(inputs, active, cycle, l)
  {
    UniformSignals(inputs, active);
    StepsAgreeUnlimited(SignalsOf(inputs, active), ActiveTimed(inputs, active), cycle, l);
  }

  predicate StepsAgree(inputs: seq<Association>, active: seq<bool>, cycle: int, l: Latch)
    requires |active| == |inputs|
  {
    var g := SignalsOf(inputs, active);
    Step(g, cycle, l) == InterpreterStep(g, ActiveTimed(inputs, active), cycle, l)
  }

  lemma UniformSignals(inputs: seq<Association>, active: seq<bool>)
    requires |active| == |inputs| && OneActiveTimer(inputs, active) && UniformDurations(inputs)
    ensures SignalsFor(SignalsOf(inputs, active), ActiveTimed(inputs, active))
  {
    if ActiveTimed(inputs, active).Some? {
      var i := ActiveTimedIsIt(inputs, active);
      FirstDurationUniform(inputs, i);
    }
    DurationNonNegative(inputs, SL);
    FlagsHave(inputs, active);
  }

  lemma StepsAgreeUnlimited(g: Signals, input: Option<Association>, cycle: int, l: Latch)
    requires SignalsFor(g, input) && !g.hasSL
    ensures Step(g, cycle, l) == InterpreterStep(g, input, cycle, l)
  {
  }

  // With SL and one duration for each qualifier: the scans in which the two
  // controllers agree. `stored` and `elapsed` are those after R and S.
  predicate LimitedAgrees(g: Signals, input: Option<Association>, cycle: int, l: Latch) {
    var stored, elapsed := g.s || (l.stored && !g.r), if g.r then 0 else l.elapsed;
    var untimed := g.Untimed(l.previous);
    if input.None? then
      // no timed step is active: nothing may be stored, or its time is not up yet at zero
      !stored || elapsed + cycle <= 0
    else if input.value.qualifier == SL then
      // the SL step is active: no restart of a running time, and nothing else runs the action when it ends
      var now := (if stored then elapsed else 0) + cycle;
      !(g.slBeforeLast && stored && elapsed != 0) && (now <= g.tSL || g.r || !untimed)
    else
      // another timed step is active: as the first case, or the C's limit is passed too
      var once := elapsed + cycle;
      var timed := (g.l && once <= g.tL) || (g.d && once >= g.tD);
      var kept := stored || (g.sd && once >= g.tSD) || (g.ds && once >= g.tDS);
      !kept || once + cycle <= 0 || (once + cycle > g.tSL && (g.r || !(untimed || timed)))
  }

  lemma LimitedParity(inputs: seq<Association>, active: seq<bool>, cycle: int, l: Latch)
    requires |active| == |inputs| && OneActiveTimer(inputs, active) && UniformDurations(inputs) && Has(inputs, SL)
    ensures StepsAgree(inputs, active, cycle, l)
            <==> LimitedAgrees(SignalsOf(inputs, active), ActiveTimed(inputs, active), cycle, l)
  {
    UniformSignals(inputs, active);
    var g, a := SignalsOf(inputs, active), ActiveTimed(inputs, active);
    hide SignalsOf, ActiveTimed;
    if a.None? {
      IdleParity(g, cycle, l);
    } else if a.value.qualifier == SL {
      RunningParity(g, a.value, cycle, l);
    } else {
      OtherTimerParity(g, a.value, cycle, l);
    }
  }

  lemma IdleParity(g: Signals, cycle: int, l: Latch)
    requires SignalsFor(g, None) && g.hasSL
    ensures Step(g, cycle, l) == InterpreterStep(g, None, cycle, l) <==> LimitedAgrees(g, None, cycle, l)
  {
  }

  lemma RunningParity(g: Signals, a: Association, cycle: int, l: Latch)
    requires SignalsFor(g, Some(a)) && g.hasSL && a.qualifier == SL
    ensures Step(g, cycle, l) == InterpreterStep(g, Some(a), cycle, l) <==> LimitedAgrees(g, Some(a), cycle, l)
  {
  }

  lemma OtherTimerParity(g: Signals, a: Association, cycle: int, l: Latch)
    requires SignalsFor(g, Some(a)) && g.hasSL && a.qualifier != SL
    ensures Step(g, cycle, l) == InterpreterStep(g, Some(a), cycle, l) <==> LimitedAgrees(g, Some(a), cycle, l)
  {
  }
}
