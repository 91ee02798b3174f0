/**
 * When the generated C and the interpreter run an action in the same scans, over
 * all runs in which at most one timed association is active at a time. (With
 * more, the interpreter reports an error and does nothing.)
 */
module SfcParity {
  import opened Wrappers
  import opened SfcActions
  import opened SfcInterpreter

  // ----- runs -----

  function InterpretedAfter(inputs: seq<Association>, cycle: int, scans: seq<seq<bool>>): Latch
    requires Fits(inputs, scans)
  {
    if scans == [] then INITIAL
    else
      var n := |scans| - 1;
      InterpreterStep(SignalsOf(inputs, scans[n]), ActiveTimed(inputs, scans[n]), cycle,
                      InterpretedAfter(inputs, cycle, scans[..n])).0
  }

  predicate InterpretedExecutes(inputs: seq<Association>, cycle: int, scans: seq<seq<bool>>)
    requires Fits(inputs, scans) && |scans| > 0
  {
    var n := |scans| - 1;
    InterpreterStep(SignalsOf(inputs, scans[n]), ActiveTimed(inputs, scans[n]), cycle,
                    InterpretedAfter(inputs, cycle, scans[..n])).1
  }

  ghost predicate OneTimerEach(inputs: seq<Association>, scans: seq<seq<bool>>) {
    Fits(inputs, scans) && forall k :: 0 <= k < |scans| ==> OneActiveTimer(inputs, scans[k])
  }

  // The action runs in the same scans, in every run.
  ghost predicate RunAlike(inputs: seq<Association>, cycle: int) {
    forall scans | OneTimerEach(inputs, scans) && |scans| > 0 ::
      Executes(inputs, cycle, scans) == InterpretedExecutes(inputs, cycle, scans)
  }

  // ----- time in whole cycles -----

  // L and SL compare with the last cycle that is in time, the others with the
  // first that is not before it.
  function CyclesOf(q: Qualifier, t: int, cycle: int): (k: int)
    requires cycle > 0 && t >= 0
    ensures k >= 0 && (q != L && q != SL ==> k >= 1)
  {
    if q == L || q == SL then t / cycle else if t == 0 then 1 else (t - 1) / cycle + 1
  }

  function InCycles(inputs: seq<Association>, cycle: int): (ins: seq<Association>)
    requires cycle > 0
    ensures |ins| == |inputs|
    ensures forall k :: 0 <= k < |inputs| ==> ins[k].qualifier == inputs[k].qualifier
    ensures forall k :: 0 <= k < |inputs| ==>
      DurationMs(ins[k].duration) == CyclesOf(inputs[k].qualifier, DurationMs(inputs[k].duration), cycle)
  {
    seq(|inputs|, k requires 0 <= k < |inputs| =>
      Association(inputs[k].qualifier, Some(CyclesOf(inputs[k].qualifier, DurationMs(inputs[k].duration), cycle))))
  }

  lemma WholeCycles(t: int, cycle: int, k: int)
    requires t >= 0 && cycle > 0 && k >= 1
    ensures k * cycle <= t <==> k <= CyclesOf(L, t, cycle)
    ensures k * cycle >= t <==> k >= CyclesOf(D, t, cycle)
  {
    Product(k, cycle, t);
    if t > 0 {
      Product(k, cycle, t - 1);
    } else {
      Monotone(0, k, cycle);
    }
  }

  lemma Counted(k: int, cycle: int)
    ensures (k + 1) * cycle == k * cycle + cycle && (k + 2) * cycle == k * cycle + cycle + cycle
    ensures 0 * cycle == 0 && 1 * cycle == cycle
  {
  }

  ghost predicate SameFlags(g: Signals, h: Signals) {
    && g.n == h.n && g.s == h.s && g.r == h.r && g.p == h.p && g.p0 == h.p0 && g.hasP0 == h.hasP0
    && g.l == h.l && g.d == h.d && g.sd == h.sd && g.ds == h.ds && g.sl == h.sl && g.hasSL == h.hasSL
    && g.slBeforeLast == h.slBeforeLast
  }

  ghost predicate SignalsInCycles(g: Signals, h: Signals, cycle: int)
    requires cycle > 0
  {
    && SameFlags(g, h) && g.tL >= 0 && g.tD >= 0 && g.tSD >= 0 && g.tDS >= 0 && g.tSL >= 0
    && (g.l ==> h.tL == CyclesOf(L, g.tL, cycle)) && (g.d ==> h.tD == CyclesOf(D, g.tD, cycle))
    && (g.sd ==> h.tSD == CyclesOf(SD, g.tSD, cycle)) && (g.ds ==> h.tDS == CyclesOf(DS, g.tDS, cycle))
    && (g.hasSL ==> h.tSL == CyclesOf(SL, g.tSL, cycle))
  }

  ghost predicate InputInCycles(a: Option<Association>, b: Option<Association>, cycle: int)
    requires cycle > 0
  {
    && a.Some? == b.Some?
    && (a.Some? ==> a.value.qualifier == b.value.qualifier
                    && DurationMs(b.value.duration) == CyclesOf(a.value.qualifier, DurationMs(a.value.duration), cycle))
  }

  // The same latch, its time in milliseconds and in cycles.
  ghost predicate LatchInCycles(l: Latch, m: Latch, cycle: int) {
    l.stored == m.stored && l.previous == m.previous && m.elapsed >= 0 && l.elapsed == m.elapsed * cycle
  }

  lemma TimersInCycles(g: Signals, h: Signals, input: Option<Association>, cycle: int, l: Latch, m: Latch)
    requires cycle > 0 && FlagsFor(g, input) && SignalsInCycles(g, h, cycle) && LatchInCycles(l, m, cycle)
    ensures LatchInCycles(Timers(g, cycle, l).0, Timers(h, 1, m).0, cycle)
    ensures Timers(g, cycle, l).1 == Timers(h, 1, m).1
  {
    var k := m.elapsed + 1;
    Counted(m.elapsed, cycle);
    if g.l { WholeCycles(g.tL, cycle, k); }
    if g.d { WholeCycles(g.tD, cycle, k); }
    if g.sd { WholeCycles(g.tSD, cycle, k); }
    if g.ds { WholeCycles(g.tDS, cycle, k); }
  }

  lemma StoredInCycles(g: Signals, h: Signals, cycle: int, l: Latch, m: Latch)
    requires cycle > 0 && SignalsInCycles(g, h, cycle) && LatchInCycles(l, m, cycle)
    ensures LatchInCycles(Stored(g, cycle, l), Stored(h, 1, m), cycle)
  {
    Counted(m.elapsed, cycle);
    WholeCycles(g.tSL, cycle, m.elapsed + 1);
    WholeCycles(g.tSL, cycle, 1);
  }

  lemma StepInCycles(g: Signals, h: Signals, input: Option<Association>, cycle: int, l: Latch, m: Latch)
    requires cycle > 0 && FlagsFor(g, input) && SignalsInCycles(g, h, cycle) && LatchInCycles(l, m, cycle)
    ensures LatchInCycles(Step(g, cycle, l).0, Step(h, 1, m).0, cycle) && Step(g, cycle, l).1 == Step(h, 1, m).1
  {
    hide Timers, Stored, CyclesOf;
    var l1, m1 := AfterReset(g, l).(previous := g.p || g.p0), AfterReset(h, m).(previous := h.p || h.p0);
    Counted(0, cycle);
    TimersInCycles(g, h, input, cycle, l1, m1);
    StoredInCycles(g, h, cycle, Timers(g, cycle, l1).0, Timers(h, 1, m1).0);
  }

  lemma InterpretTimedInCycles(a: Option<Association>, b: Option<Association>, cycle: int, l: Latch, m: Latch)
    requires cycle > 0 && InputInCycles(a, b, cycle) && LatchInCycles(l, m, cycle)
    requires a.Some? ==> NeedsDuration(a.value.qualifier)
    ensures LatchInCycles(InterpretTimed(a, cycle, l).0, InterpretTimed(b, 1, m).0, cycle)
    ensures InterpretTimed(a, cycle, l).1 == InterpretTimed(b, 1, m).1
  {
    Counted(m.elapsed, cycle);
    if a.Some? { WholeCycles(DurationMs(a.value.duration), cycle, m.elapsed + 1); }
  }

  lemma InterpretStoredInCycles(g: Signals, h: Signals, a: Option<Association>, b: Option<Association>, cycle: int,
      l: Latch, m: Latch, execute: bool)
    requires cycle > 0 && SameFlags(g, h) && InputInCycles(a, b, cycle) && LatchInCycles(l, m, cycle)
    ensures var x, y := InterpretStored(g, a, cycle, l, execute), InterpretStored(h, b, 1, m, execute);
      LatchInCycles(x.0, y.0, cycle) && x.1 == y.1
  {
    Counted(m.elapsed, cycle);
    WholeCycles(0, cycle, m.elapsed + 1);
    if a.Some? { WholeCycles(DurationMs(a.value.duration), cycle, m.elapsed + 1); }
  }

  lemma InterpreterStepInCycles(g: Signals, h: Signals, a: Option<Association>, b: Option<Association>, cycle: int,
      l: Latch, m: Latch)
    requires cycle > 0 && FlagsFor(g, a) && SameFlags(g, h) && InputInCycles(a, b, cycle) && LatchInCycles(l, m, cycle)
    ensures LatchInCycles(InterpreterStep(g, a, cycle, l).0, InterpreterStep(h, b, 1, m).0, cycle)
    ensures InterpreterStep(g, a, cycle, l).1 == InterpreterStep(h, b, 1, m).1
  {
    hide InterpretTimed, InterpretStored;
    var l1, m1 := if g.r then l.(stored := false, elapsed := 0) else l, if h.r
        then m.(stored := false, elapsed := 0) else m;
    var l2, m2 := l1.(previous := g.p || g.p0), m1.(previous := h.p || h.p0);
    var l3, m3 := if g.s then l2.(stored := true) else l2, if h.s then m2.(stored := true) else m2;
    Counted(0, cycle);
    InterpretTimedInCycles(a, b, cycle, l3, m3);
    var l4, m4 := InterpretTimed(a, cycle, l3), InterpretTimed(b, 1, m3);
    InterpretStoredInCycles(g, h, a, b, cycle, l4.0, m4.0, g.Untimed(l1.previous) || l4.1);
  }

  // ----- the signals in whole cycles -----

  lemma SameQualifiers(inputs: seq<Association>, cycle: int, active: seq<bool>, q: Qualifier)
    requires cycle > 0 && |active| == |inputs|
    ensures Has(inputs, q) == Has(InCycles(inputs, cycle), q)
        && Any(inputs, active, q) == Any(InCycles(inputs, cycle), active, q)
  {
  }

  lemma {:induction false} FirstInCycles(inputs: seq<Association>, cycle: int, q: Qualifier)
    requires cycle > 0
    ensures FirstDuration(inputs, q) >= 0
    ensures Has(inputs, q) ==> FirstDuration(InCycles(inputs, cycle), q) == CyclesOf(q, FirstDuration(inputs, q), cycle)
  {
    hide CyclesOf;
    if inputs == [] {
    } else {
      FirstInCycles(inputs[1..], cycle, q);
      assert InCycles(inputs, cycle)[1..] == InCycles(inputs[1..], cycle);
      if inputs[0].qualifier != q && Has(inputs, q) {
        var k :| 0 <= k < |inputs| && inputs[k].qualifier == q;
        assert inputs[1..][k - 1].qualifier == q;
      }
    }
  }

  lemma {:induction false} ActiveInCycles(inputs: seq<Association>, cycle: int, active: seq<bool>)
    requires cycle > 0 && |active| == |inputs|
    ensures InputInCycles(ActiveTimed(inputs, active), ActiveTimed(InCycles(inputs, cycle), active), cycle)
    decreases |inputs|
  {
    hide CyclesOf;
    if inputs == [] {
    } else {
      ActiveInCycles(inputs[1..], cycle, active[1..]);
      assert InCycles(inputs, cycle)[1..] == InCycles(inputs[1..], cycle);
    }
  }

  lemma FlagsInCycles(inputs: seq<Association>, cycle: int, active: seq<bool>)
    requires cycle > 0 && |active| == |inputs|
    ensures SameFlags(SignalsOf(inputs, active), SignalsOf(InCycles(inputs, cycle), active))
  {
    var ins := InCycles(inputs, cycle);
    forall i | 0 <= i < |inputs|
      ensures inputs[i].qualifier == ins[i].qualifier && Has(inputs[i + 1..], SL) == Has(ins[i + 1..], SL)
    {
      assert ins[i + 1..] == InCycles(inputs[i + 1..], cycle);
      SameQualifiers(inputs[i + 1..], cycle, active[i + 1..], SL);
    }
    hide Has, Any, InCycles, CyclesOf, FirstDuration;
    forall q ensures Has(inputs, q) == Has(ins, q) && Any(inputs, active, q) == Any(ins, active, q) {
      SameQualifiers(inputs, cycle, active, q);
    }
  }

  lemma ActiveAreThere(inputs: seq<Association>, active: seq<bool>)
    requires |active| == |inputs|
    ensures forall q :: Any(inputs, active, q) ==> Has(inputs, q)
  {
  }

  lemma SignalsScale(inputs: seq<Association>, cycle: int, active: seq<bool>)
    requires cycle > 0 && |active| == |inputs|
    ensures SignalsInCycles(SignalsOf(inputs, active), SignalsOf(InCycles(inputs, cycle), active), cycle)
  {
    hide Has, Any, InCycles, CyclesOf, FirstDuration;
    FlagsInCycles(inputs, cycle, active);
    ActiveAreThere(inputs, active);
    FirstInCycles(inputs, cycle, L);
    FirstInCycles(inputs, cycle, D);
    FirstInCycles(inputs, cycle, SD);
    FirstInCycles(inputs, cycle, DS);
    FirstInCycles(inputs, cycle, SL);
  }

  lemma OneTimerInCycles(inputs: seq<Association>, cycle: int, scans: seq<seq<bool>>)
    requires cycle > 0
    ensures OneTimerEach(inputs, scans) <==> OneTimerEach(InCycles(inputs, cycle), scans)
  {
    var ins := InCycles(inputs, cycle);
    if Fits(inputs, scans) {
      forall k | 0 <= k < |scans| ensures OneActiveTimer(inputs, scans[k]) <==> OneActiveTimer(ins, scans[k]) { }
    }
  }

  lemma {:induction false} RunInCycles(inputs: seq<Association>, cycle: int, scans: seq<seq<bool>>)
    requires cycle > 0 && OneTimerEach(inputs, scans)
    ensures var ins := InCycles(inputs, cycle);
      && Fits(ins, scans)
      && LatchInCycles(After(inputs, cycle, scans), After(ins, 1, scans), cycle)
      && LatchInCycles(InterpretedAfter(inputs, cycle, scans), InterpretedAfter(ins, 1, scans), cycle)
      && (scans != [] ==> Executes(inputs, cycle, scans) == Executes(ins, 1, scans))
      && (scans != [] ==> InterpretedExecutes(inputs, cycle, scans) == InterpretedExecutes(ins, 1, scans))
    decreases |scans|
  {
    var ins := InCycles(inputs, cycle);
    hide SignalsOf, Step, InterpreterStep, InCycles, OneActiveTimer, SignalsInCycles, InputInCycles, FlagsFor;
    if scans == [] {
      Counted(0, cycle);
    } else {
      hide LatchInCycles;
      var n := |scans| - 1;
      RunInCycles(inputs, cycle, scans[..n]);
      ScanInCycles(inputs, cycle, scans[n], After(inputs, cycle, scans[..n]), After(ins, 1, scans[..n]),
                   InterpretedAfter(inputs, cycle, scans[..n]), InterpretedAfter(ins, 1, scans[..n]));
    }
  }

  lemma ScanInCycles(inputs: seq<Association>, cycle: int, active: seq<bool>, l: Latch, m: Latch, l': Latch, m': Latch)
    requires cycle > 0 && |active| == |inputs| && OneActiveTimer(inputs, active)
    requires LatchInCycles(l, m, cycle) && LatchInCycles(l', m', cycle)
    ensures var ins := InCycles(inputs, cycle);
      var g, h, a, b := SignalsOf(inputs, active), SignalsOf(ins, active), ActiveTimed(inputs, active),
          ActiveTimed(ins, active);
      && LatchInCycles(Step(g, cycle, l).0, Step(h, 1, m).0, cycle) && Step(g, cycle, l).1 == Step(h, 1, m).1
      && LatchInCycles(InterpreterStep(g, a, cycle, l').0, InterpreterStep(h, b, 1, m').0, cycle)
      && InterpreterStep(g, a, cycle, l').1 == InterpreterStep(h, b, 1, m').1
  {
    hide SignalsOf, Step, InterpreterStep, InCycles, OneActiveTimer, InputInCycles, FlagsFor, LatchInCycles, CyclesOf;
    var ins := InCycles(inputs, cycle);
    SignalsScale(inputs, cycle, active);
    ActiveInCycles(inputs, cycle, active);
    FlagsHave(inputs, active);
    StepInCycles(SignalsOf(inputs, active), SignalsOf(ins, active), ActiveTimed(inputs, active), cycle, l, m);
    InterpreterStepInCycles(SignalsOf(inputs, active), SignalsOf(ins, active), ActiveTimed(inputs, active),
                            ActiveTimed(ins, active), cycle, l', m');
  }

  // Whether the controllers agree depends on the durations in whole cycles only.
  lemma AlikeInCycles(inputs: seq<Association>, cycle: int)
    requires cycle > 0
    ensures RunAlike(inputs, cycle) <==> RunAlike(InCycles(inputs, cycle), 1)
  {
    hide Executes, InterpretedExecutes, InCycles, OneTimerEach, After, InterpretedAfter;
    var ins := InCycles(inputs, cycle);
    forall scans ensures OneTimerEach(inputs, scans) <==> OneTimerEach(ins, scans) {
      OneTimerInCycles(inputs, cycle, scans);
    }
    forall scans | OneTimerEach(inputs, scans) && |scans| > 0
      ensures Fits(inputs, scans) && Fits(ins, scans)
      ensures Executes(inputs, cycle, scans) == Executes(ins, 1, scans)
      ensures InterpretedExecutes(inputs, cycle, scans) == InterpretedExecutes(ins, 1, scans)
    {
      RunInCycles(inputs, cycle, scans);
    }
  }

  // ----- the condition, on durations in whole cycles -----

  // All associations with the qualifier have the duration of the first.
  ghost predicate AsFirst(ins: seq<Association>, q: Qualifier) {
    forall k :: 0 <= k < |ins| && ins[k].qualifier == q ==> DurationMs(ins[k].duration) == FirstDuration(ins, q)
  }

  ghost predicate AtMostOne(ins: seq<Association>, q: Qualifier) {
    forall i, j :: 0 <= i < j < |ins| ==> !(ins[i].qualifier == q && ins[j].qualifier == q)
  }

  // No L or D compares a time that has run on from k cycles.
  predicate Passed(ins: seq<Association>, k: int) {
    (Has(ins, L) ==> FirstDuration(ins, L) <= k) && (Has(ins, D) ==> FirstDuration(ins, D) <= k + 1)
  }

  // Durations differ only where the time is past every L and D.
  ghost predicate Unseen(ins: seq<Association>, q: Qualifier) {
    forall k :: 0 <= k < |ins| && ins[k].qualifier == q && DurationMs(ins[k].duration) != FirstDuration(ins, q) ==>
      Passed(ins, Lesser(DurationMs(ins[k].duration), FirstDuration(ins, q)))
  }

  function Lesser(a: int, b: int): int {
    if a < b then a else b
  }

  // With SL: nothing else runs the action. An SL time below one cycle never
  // starts it; one of a single cycle stops it before the interpreter forgets it.
  ghost predicate LimitedAlike(ins: seq<Association>) {
    var t := FirstDuration(ins, SL);
    && !Has(ins, N) && !Has(ins, P) && !Has(ins, P0)
    && (if t == 0 then AsFirst(ins, SL) else t == 1 && AtMostOne(ins, SL) && !Has(ins, S))
    && (if t == 0 && !Has(ins, S) then
          AsFirst(ins, L) && AsFirst(ins, D) && Unseen(ins, SD) && Unseen(ins, DS)
        else !Has(ins, D) && AsFirst(ins, L) && FirstDuration(ins, L) == 0)
  }

  ghost predicate Alike(ins: seq<Association>) {
    if Has(ins, SL) then LimitedAlike(ins)
    else AsFirst(ins, L) && AsFirst(ins, D) && AsFirst(ins, SD) && AsFirst(ins, DS)
  }

  // ----- one scan, its cycle being the unit -----

  // What is known of a scan's signals and of its active timed association.
  ghost predicate ScanOf(ins: seq<Association>, g: Signals, a: Option<Association>) {
    && FlagsFor(g, a) && (a.Some? ==> exists k :: 0 <= k < |ins| && ins[k] == a.value)
    && (g.n ==> Has(ins, N)) && (g.s ==> Has(ins, S)) && (g.p ==> Has(ins, P)) && (g.p0 ==> Has(ins, P0))
    && (g.l ==> Has(ins, L)) && (g.d ==> Has(ins, D))
    && g.hasP0 == Has(ins, P0) && g.hasSL == Has(ins, SL) && (g.slBeforeLast ==> !AtMostOne(ins, SL))
    && g.tL == FirstDuration(ins, L) && g.tD == FirstDuration(ins, D) && g.tSD == FirstDuration(ins, SD)
    && g.tDS == FirstDuration(ins, DS) && g.tSL == FirstDuration(ins, SL)
  }

  lemma ScanHas(ins: seq<Association>, active: seq<bool>)
    requires |active| == |ins| && OneActiveTimer(ins, active)
    ensures ScanOf(ins, SignalsOf(ins, active), ActiveTimed(ins, active))
  {
    FlagsHave(ins, active);
    ActiveAreThere(ins, active);
    if ActiveTimed(ins, active).Some? { var k := ActiveTimedIsIt(ins, active); }
    var g := SignalsOf(ins, active);
    if g.slBeforeLast {
      var i :| 0 <= i < |ins| && ins[i].qualifier == SL && active[i] && Has(ins[i + 1..], SL);
      var j :| 0 <= j < |ins[i + 1..]| && ins[i + 1..][j].qualifier == SL;
      assert ins[i + 1 + j].qualifier == SL;
    }
  }

  // ----- alike: what every scan keeps -----

  // Nothing but an SL time of one cycle is ever stored for longer than a scan.
  predicate Quiet(l: Latch, m: Latch, t: int) {
    && l.stored == m.stored && l.elapsed >= 0 && m.elapsed >= 0
    && (l.stored ==> t == 1 && l.elapsed == m.elapsed == 1)
  }

  // Nothing is stored, and the times are equal or past every comparison.
  predicate Timing(ins: seq<Association>, l: Latch, m: Latch) {
    && !l.stored && !m.stored && l.elapsed >= 0 && m.elapsed >= 0
    && (l.elapsed == m.elapsed || Passed(ins, Lesser(l.elapsed, m.elapsed)))
  }

  predicate Related(ins: seq<Association>, l: Latch, m: Latch) {
    if !Has(ins, SL) then l == m
    else if FirstDuration(ins, SL) == 0 && !Has(ins, S) then Timing(ins, l, m)
    else Quiet(l, m, FirstDuration(ins, SL))
  }

  // The two steps from related latches.
  ghost predicate Keeps(ins: seq<Association>, g: Signals, a: Option<Association>, l: Latch, m: Latch) {
    && Related(ins, Step(g, 1, l).0, InterpreterStep(g, a, 1, m).0)
    && Step(g, 1, l).1 == InterpreterStep(g, a, 1, m).1
  }

  lemma UnlimitedKeeps(ins: seq<Association>, g: Signals, a: Option<Association>, l: Latch)
    requires !Has(ins, SL) && Alike(ins) && ScanOf(ins, g, a)
    ensures Keeps(ins, g, a, l, l)
  {
    if a.Some? { var k :| 0 <= k < |ins| && ins[k] == a.value; }
    DurationNonNegative(ins, SL);
    assert SignalsFor(g, a);
    StepsAgreeUnlimited(g, a, 1, l);
  }

  lemma QuietKeeps(ins: seq<Association>, g: Signals, a: Option<Association>, l: Latch, m: Latch)
    requires Has(ins, SL) && LimitedAlike(ins) && ScanOf(ins, g, a)
    requires !(FirstDuration(ins, SL) == 0 && !Has(ins, S)) && Quiet(l, m, FirstDuration(ins, SL))
    ensures Keeps(ins, g, a, l, m)
  {
    var t := FirstDuration(ins, SL);
    assert a.Some? && a.value.qualifier == L ==> DurationMs(a.value.duration) == 0;
    assert a.Some? && a.value.qualifier == SL ==> DurationMs(a.value.duration) == t by {
      if a.Some? && a.value.qualifier == SL && t == 1 {
        var k :| 0 <= k < |ins| && ins[k] == a.value;
        var f := FirstHas(ins, SL);
        assert k == f;
      }
    }
    hide FirstDuration, AsFirst, AtMostOne, DurationMs;
    QuietStep(g, a, l, m, t);
  }

  lemma QuietStep(g: Signals, a: Option<Association>, l: Latch, m: Latch, t: int)
    requires FlagsFor(g, a) && g.hasSL && g.tSL == t && Quiet(l, m, t)
    requires !g.n && !g.p && !g.p0 && !g.hasP0 && !g.d && (g.l ==> g.tL == 0)
    requires t == 0 || (t == 1 && !g.slBeforeLast && !g.s)
    requires a.Some? && a.value.qualifier == L ==> DurationMs(a.value.duration) == 0
    requires a.Some? && a.value.qualifier == SL ==> DurationMs(a.value.duration) == t
    ensures Quiet(Step(g, 1, l).0, InterpreterStep(g, a, 1, m).0, t)
    ensures Step(g, 1, l).1 == InterpreterStep(g, a, 1, m).1
  {
  }

  lemma TimingKeeps(ins: seq<Association>, g: Signals, a: Option<Association>, l: Latch, m: Latch)
    requires Has(ins, SL) && LimitedAlike(ins) && ScanOf(ins, g, a)
    requires FirstDuration(ins, SL) == 0 && !Has(ins, S) && Timing(ins, l, m)
    ensures Keeps(ins, g, a, l, m)
  {
    if a.Some? {
      var k :| 0 <= k < |ins| && ins[k] == a.value;
      assert a.value.qualifier == SL ==> DurationMs(a.value.duration) == 0;
    }
    hide FirstDuration, AsFirst, AtMostOne, DurationMs, Unseen, Has;
    TimingStep(ins, g, a, l, m);
  }

  lemma TimingStep(ins: seq<Association>, g: Signals, a: Option<Association>, l: Latch, m: Latch)
    requires FlagsFor(g, a) && g.hasSL && g.tSL == 0 && Timing(ins, l, m)
    requires !g.n && !g.s && !g.p && !g.p0 && !g.hasP0
    requires g.l ==> Has(ins, L) && g.tL == FirstDuration(ins, L) == DurationMs(a.value.duration)
    requires g.d ==> Has(ins, D) && g.tD == FirstDuration(ins, D) == DurationMs(a.value.duration)
    requires var d := if a.Some? then DurationMs(a.value.duration) else 0;
      && (g.sd ==> d == g.tSD || Passed(ins, Lesser(d, g.tSD)))
      && (g.ds ==> d == g.tDS || Passed(ins, Lesser(d, g.tDS)))
      && (g.sl ==> d == 0)
    ensures Timing(ins, Step(g, 1, l).0, InterpreterStep(g, a, 1, m).0)
    ensures Step(g, 1, l).1 == InterpreterStep(g, a, 1, m).1
  {
    hide Has, FirstDuration, DurationMs;
  }

  lemma {:induction false} FirstHas(ins: seq<Association>, q: Qualifier) returns (f: nat)
    requires Has(ins, q)
    ensures f < |ins| && ins[f].qualifier == q && DurationMs(ins[f].duration) == FirstDuration(ins, q)
    ensures forall k :: 0 <= k < f ==> ins[k].qualifier != q
  {
    if ins[0].qualifier == q {
      f := 0;
    } else {
      var k :| 0 <= k < |ins| && ins[k].qualifier == q;
      assert ins[1..][k - 1].qualifier == q;
      var g := FirstHas(ins[1..], q);
      f := g + 1;
    }
  }

  lemma {:induction false} AlikeRuns(ins: seq<Association>, scans: seq<seq<bool>>)
    requires Alike(ins) && OneTimerEach(ins, scans)
    ensures Related(ins, After(ins, 1, scans), InterpretedAfter(ins, 1, scans))
    ensures scans != [] ==> Executes(ins, 1, scans) == InterpretedExecutes(ins, 1, scans)
    decreases |scans|
  {
    hide SignalsOf, Step, InterpreterStep, OneActiveTimer, ScanOf, Alike;
    if scans == [] {
    } else {
      hide Related;
      var n := |scans| - 1;
      AlikeRuns(ins, scans[..n]);
      RelatedKeeps(ins, scans[n], After(ins, 1, scans[..n]), InterpretedAfter(ins, 1, scans[..n]));
    }
  }

  lemma RelatedKeeps(ins: seq<Association>, active: seq<bool>, l: Latch, m: Latch)
    requires Alike(ins) && |active| == |ins| && OneActiveTimer(ins, active) && Related(ins, l, m)
    ensures Keeps(ins, SignalsOf(ins, active), ActiveTimed(ins, active), l, m)
  {
    hide SignalsOf, Step, InterpreterStep, OneActiveTimer, ScanOf, Keeps, LimitedAlike, Timing, Quiet;
    var g, a := SignalsOf(ins, active), ActiveTimed(ins, active);
    ScanHas(ins, active);
    if !Has(ins, SL) {
      UnlimitedKeeps(ins, g, a, l);
    } else if FirstDuration(ins, SL) == 0 && !Has(ins, S) {
      TimingKeeps(ins, g, a, l, m);
    } else {
      QuietKeeps(ins, g, a, l, m);
    }
  }

  // ----- not alike: runs that end in a difference -----

  // Some run ends with the latches l in the C and m in the interpreter.
  ghost predicate Reached(ins: seq<Association>, l: Latch, m: Latch) {
    exists scans :: OneTimerEach(ins, scans) && After(ins, 1, scans) == l && InterpretedAfter(ins, 1, scans) == m
  }

  lemma Start(ins: seq<Association>)
    ensures Reached(ins, INITIAL, INITIAL)
  {
    assert OneTimerEach(ins, []) && After(ins, 1, []) == INITIAL && InterpretedAfter(ins, 1, []) == INITIAL;
  }

  lemma Append(ins: seq<Association>, scans: seq<seq<bool>>, x: seq<bool>)
    requires OneTimerEach(ins, scans) && |x| == |ins| && OneActiveTimer(ins, x)
    ensures var l, m, g, a := After(ins, 1, scans), InterpretedAfter(ins, 1, scans), SignalsOf(ins, x),
        ActiveTimed(ins, x);
      && OneTimerEach(ins, scans + [x])
      && (After(ins, 1, scans + [x]), Executes(ins, 1, scans + [x])) == Step(g, 1, l)
      && (InterpretedAfter(ins, 1, scans + [x]), InterpretedExecutes(ins, 1, scans + [x]))
          == InterpreterStep(g, a, 1, m)
  {
    hide Step, InterpreterStep, SignalsOf, OneActiveTimer;
    assert (scans + [x])[..|scans|] == scans;
  }

  lemma Move(ins: seq<Association>, l: Latch, m: Latch, x: seq<bool>)
    requires Reached(ins, l, m) && |x| == |ins| && OneActiveTimer(ins, x)
    ensures Reached(ins, Step(SignalsOf(ins, x), 1, l).0,
                    InterpreterStep(SignalsOf(ins, x), ActiveTimed(ins, x), 1, m).0)
  {
    hide Step, InterpreterStep, SignalsOf, OneActiveTimer, After, InterpretedAfter;
    var scans :| OneTimerEach(ins, scans) && After(ins, 1, scans) == l && InterpretedAfter(ins, 1, scans) == m;
    Append(ins, scans, x);
  }

  lemma Differ(ins: seq<Association>, l: Latch, m: Latch, x: seq<bool>)
    requires Reached(ins, l, m) && |x| == |ins| && OneActiveTimer(ins, x)
    requires Step(SignalsOf(ins, x), 1, l).1 != InterpreterStep(SignalsOf(ins, x), ActiveTimed(ins, x), 1, m).1
    ensures !RunAlike(ins, 1)
  {
    hide Step, InterpreterStep, SignalsOf, OneActiveTimer, After, InterpretedAfter;
    var scans :| OneTimerEach(ins, scans) && After(ins, 1, scans) == l && InterpretedAfter(ins, 1, scans) == m;
    Append(ins, scans, x);
  }

  // The scan in which the associations k and l are active, and no others.
  function Two(n: nat, k: nat, l: nat): (x: seq<bool>)
    ensures |x| == n && forall i :: 0 <= i < n ==> x[i] == (i == k || i == l)
  {
    seq(n, i => i == k || i == l)
  }

  function NoneOf(n: nat): (x: seq<bool>)
    ensures |x| == n && forall i :: 0 <= i < n ==> !x[i]
  {
    seq(n, i => false)
  }

  // The signals when exactly the qualifiers p and q are active.
  ghost predicate Signalled(ins: seq<Association>, g: Signals, p: Qualifier, q: Qualifier) {
    && g.n == (p == N || q == N) && g.s == (p == S || q == S) && g.r == (p == R || q == R)
    && g.p == (p == P || q == P) && g.p0 == (p == P0 || q == P0)
    && g.l == (p == L || q == L) && g.d == (p == D || q == D) && g.sd == (p == SD || q == SD)
    && g.ds == (p == DS || q == DS) && g.sl == (p == SL || q == SL)
    && Declared(ins, g)
  }

  ghost predicate Declared(ins: seq<Association>, g: Signals) {
    && g.hasP0 == Has(ins, P0) && g.hasSL == Has(ins, SL)
    && g.tL == FirstDuration(ins, L) && g.tD == FirstDuration(ins, D) && g.tSD == FirstDuration(ins, SD)
    && g.tDS == FirstDuration(ins, DS) && g.tSL == FirstDuration(ins, SL)
  }

  ghost predicate Silent(ins: seq<Association>, g: Signals) {
    !g.n && !g.s && !g.r && !g.p && !g.p0 && !g.Timed() && !g.slBeforeLast && Declared(ins, g)
  }

  lemma {:induction false} FirstActive(ins: seq<Association>, x: seq<bool>, k: nat)
    requires |x| == |ins| && k < |ins| && x[k] && NeedsDuration(ins[k].qualifier)
    requires forall i :: 0 <= i < |ins| && x[i] && NeedsDuration(ins[i].qualifier) ==> i == k
    ensures ActiveTimed(ins, x) == Some(ins[k])
    decreases k
  {
    if k == 0 {
    } else {
      assert !(x[0] && NeedsDuration(ins[0].qualifier));
      FirstActive(ins[1..], x[1..], k - 1);
    }
  }

  lemma TwoAny(ins: seq<Association>, k: nat, l: nat, q: Qualifier)
    requires k < |ins| && l < |ins|
    ensures Any(ins, Two(|ins|, k, l), q) <==> q == ins[k].qualifier || q == ins[l].qualifier
  {
    var x := Two(|ins|, k, l);
    assert x[k] && x[l];
  }

  lemma TwoBeforeLast(ins: seq<Association>, k: nat, l: nat)
    requires k < |ins| && l < |ins| && (ins[l].qualifier != SL || k == l)
    ensures SignalsOf(ins, Two(|ins|, k, l)).slBeforeLast == (ins[k].qualifier == SL && Has(ins[k + 1..], SL))
  {
    hide Any, FirstDuration, Has;
    var x := Two(|ins|, k, l);
    assert x[k] && x[l];
  }

  lemma TwoSignals(ins: seq<Association>, k: nat, l: nat)
    requires k < |ins| && l < |ins|
    ensures var g := SignalsOf(ins, Two(|ins|, k, l));
      && Signalled(ins, g, ins[k].qualifier, ins[l].qualifier)
      && (ins[l].qualifier != SL || k == l ==> g.slBeforeLast == (ins[k].qualifier == SL && Has(ins[k + 1..], SL)))
  {
    hide Any, FirstDuration, Has;
    var x := Two(|ins|, k, l);
    forall q ensures Any(ins, x, q) <==> q == ins[k].qualifier || q == ins[l].qualifier { TwoAny(ins, k, l, q); }
    if ins[l].qualifier != SL || k == l { TwoBeforeLast(ins, k, l); }
  }

  // One association, or a timed one and one that is not.
  lemma TwoActive(ins: seq<Association>, k: nat, l: nat)
    requires k < |ins| && l < |ins| && (k == l || !NeedsDuration(ins[l].qualifier))
    ensures var x := Two(|ins|, k, l);
      && OneActiveTimer(ins, x) && Signalled(ins, SignalsOf(ins, x), ins[k].qualifier, ins[l].qualifier)
      && SignalsOf(ins, x).slBeforeLast == (ins[k].qualifier == SL && Has(ins[k + 1..], SL))
      && ActiveTimed(ins, x) == if NeedsDuration(ins[k].qualifier) then Some(ins[k]) else None
  {
    var x := Two(|ins|, k, l);
    TwoSignals(ins, k, l);
    hide SignalsOf, Signalled;
    if NeedsDuration(ins[k].qualifier) {
      FirstActive(ins, x, k);
    } else if ActiveTimed(ins, x).Some? {
      var i := ActiveTimedIsIt(ins, x);
      assert false;
    }
  }

  lemma NoneActive(ins: seq<Association>)
    ensures var x := NoneOf(|ins|);
      OneActiveTimer(ins, x) && Silent(ins, SignalsOf(ins, x)) && ActiveTimed(ins, x).None?
  {
    if ActiveTimed(ins, NoneOf(|ins|)).Some? {
      var i := ActiveTimedIsIt(ins, NoneOf(|ins|));
      assert false;
    }
  }

  // What a lone L or D does from the times a and b, nothing being stored.
  lemma {:induction false} Drift(ins: seq<Association>, k: nat, a: nat, b: nat, n: nat)
    requires k < |ins| && (ins[k].qualifier == L || ins[k].qualifier == D)
    requires Reached(ins, Latch(false, false, a), Latch(false, false, b))
    ensures Reached(ins, Latch(false, false, a + n), Latch(false, false, b + n))
    decreases n
  {
    hide Reached, SignalsOf;
    if n == 0 {
    } else {
      Drift(ins, k, a, b, n - 1);
      TwoActive(ins, k, k);
      Move(ins, Latch(false, false, a + n - 1), Latch(false, false, b + n - 1), Two(|ins|, k, k));
    }
  }

  // Times that have come apart show in the first L ...
  lemma ApartInL(ins: seq<Association>, a: nat, b: nat)
    requires Has(ins, L) && a != b && Lesser(a, b) < FirstDuration(ins, L)
    requires Reached(ins, Latch(false, false, a), Latch(false, false, b))
    ensures !RunAlike(ins, 1)
  {
    hide Reached, SignalsOf, RunAlike;
    var k := FirstHas(ins, L);
    var n := FirstDuration(ins, L) - Lesser(a, b) - 1;
    Drift(ins, k, a, b, n);
    TwoActive(ins, k, k);
    Differ(ins, Latch(false, false, a + n), Latch(false, false, b + n), Two(|ins|, k, k));
  }

  // ... and in the first D, if its time has not passed.
  lemma ApartInD(ins: seq<Association>, a: nat, b: nat)
    requires Has(ins, D) && a != b && Lesser(a, b) + 1 < FirstDuration(ins, D)
    requires Reached(ins, Latch(false, false, a), Latch(false, false, b))
    ensures !RunAlike(ins, 1)
  {
    hide Reached, SignalsOf, RunAlike;
    var k := FirstHas(ins, D);
    var greater := if a < b then b else a;
    var n := if FirstDuration(ins, D) <= greater + 1 then 0 else FirstDuration(ins, D) - greater - 1;
    Drift(ins, k, a, b, n);
    TwoActive(ins, k, k);
    Differ(ins, Latch(false, false, a + n), Latch(false, false, b + n), Two(|ins|, k, k));
  }

  // An L or D of another duration than the first, active alone.
  lemma OtherDurationShows(ins: seq<Association>, k: nat)
    requires k < |ins| && (ins[k].qualifier == L || ins[k].qualifier == D)
    requires var t, u := FirstDuration(ins, ins[k].qualifier), DurationMs(ins[k].duration);
      t != u && t >= 0 && (ins[k].qualifier == D ==> t >= 1 && u >= 1)
    ensures !RunAlike(ins, 1)
  {
    hide Reached, SignalsOf, RunAlike;
    var t, u := FirstDuration(ins, ins[k].qualifier), DurationMs(ins[k].duration);
    var n := if ins[k].qualifier == L then Lesser(t, u) else Lesser(t, u) - 1;
    Start(ins);
    Drift(ins, k, 0, 0, n);
    TwoActive(ins, k, k);
    Differ(ins, Latch(false, false, n), Latch(false, false, n), Two(|ins|, k, k));
  }

  // The same for SD and DS, up to the scan in which one of the two is stored.
  lemma {:induction false} StoredLater(ins: seq<Association>, k: nat, n: nat)
    requires k < |ins| && (ins[k].qualifier == SD || ins[k].qualifier == DS)
    requires n < FirstDuration(ins, ins[k].qualifier) && n < DurationMs(ins[k].duration)
    ensures Reached(ins, Latch(false, false, n), Latch(false, false, n))
    decreases n
  {
    hide Reached, SignalsOf;
    if n == 0 {
      Start(ins);
    } else {
      StoredLater(ins, k, n - 1);
      TwoActive(ins, k, k);
      Move(ins, Latch(false, false, n - 1), Latch(false, false, n - 1), Two(|ins|, k, k));
    }
  }

  lemma OtherStoredShows(ins: seq<Association>, k: nat)
    requires k < |ins| && (ins[k].qualifier == SD || ins[k].qualifier == DS) && !Has(ins, SL)
    requires FirstDuration(ins, ins[k].qualifier) >= 1 && DurationMs(ins[k].duration) >= 1
    requires FirstDuration(ins, ins[k].qualifier) != DurationMs(ins[k].duration)
    ensures !RunAlike(ins, 1)
  {
    hide Reached, SignalsOf, RunAlike;
    var n := Lesser(FirstDuration(ins, ins[k].qualifier), DurationMs(ins[k].duration)) - 1;
    StoredLater(ins, k, n);
    TwoActive(ins, k, k);
    Differ(ins, Latch(false, false, n), Latch(false, false, n), Two(|ins|, k, k));
  }

  // With an SL that never runs, storing shows in the time only, ...
  lemma StoredMoves(ins: seq<Association>, k: nat) returns (a: nat, b: nat)
    requires k < |ins| && (ins[k].qualifier == SD || ins[k].qualifier == DS)
    requires Has(ins, SL) && FirstDuration(ins, SL) == 0
    requires FirstDuration(ins, ins[k].qualifier) >= 1 && DurationMs(ins[k].duration) >= 1
    requires FirstDuration(ins, ins[k].qualifier) != DurationMs(ins[k].duration)
    ensures a != b && Lesser(a, b) == Lesser(DurationMs(ins[k].duration), FirstDuration(ins, ins[k].qualifier))
    ensures Reached(ins, Latch(false, false, a), Latch(false, false, b))
  {
    hide Reached, SignalsOf;
    var t, u := FirstDuration(ins, ins[k].qualifier), DurationMs(ins[k].duration);
    var n := Lesser(t, u) - 1;
    StoredLater(ins, k, n);
    TwoActive(ins, k, k);
    Move(ins, Latch(false, false, n), Latch(false, false, n), Two(|ins|, k, k));
    a, b := if t < u then t + 1 else u, if t < u then t else u + 1;
  }

  // ... which shows in an L or D that is not past it.
  lemma SeenShows(ins: seq<Association>, k: nat)
    requires k < |ins| && (ins[k].qualifier == SD || ins[k].qualifier == DS)
    requires Has(ins, SL) && FirstDuration(ins, SL) == 0
    requires FirstDuration(ins, ins[k].qualifier) >= 1 && DurationMs(ins[k].duration) >= 1
    requires FirstDuration(ins, ins[k].qualifier) != DurationMs(ins[k].duration)
    requires !Passed(ins, Lesser(DurationMs(ins[k].duration), FirstDuration(ins, ins[k].qualifier)))
    ensures !RunAlike(ins, 1)
  {
    hide Reached, RunAlike;
    var a, b := StoredMoves(ins, k);
    if Has(ins, L) && FirstDuration(ins, L) > Lesser(a, b) {
      ApartInL(ins, a, b);
    } else {
      ApartInD(ins, a, b);
    }
  }

  // ----- SL -----

  // The first SL, started from rest.
  lemma Started(ins: seq<Association>, f: nat)
    requires f < |ins| && ins[f].qualifier == SL && DurationMs(ins[f].duration) == FirstDuration(ins, SL) >= 1
    ensures Reached(ins, Latch(true, false, 1), Latch(true, false, 1))
  {
    hide Reached, SignalsOf;
    assert Has(ins, SL);
    Start(ins);
    TwoActive(ins, f, f);
    Move(ins, INITIAL, INITIAL, Two(|ins|, f, f));
  }

  // Left by its step after one scan, it goes on in the C.
  lemma LeavingShows(ins: seq<Association>)
    requires Has(ins, SL) && FirstDuration(ins, SL) >= 2
    ensures !RunAlike(ins, 1)
  {
    hide Reached, SignalsOf, RunAlike;
    var f := FirstHas(ins, SL);
    Started(ins, f);
    NoneActive(ins);
    Differ(ins, Latch(true, false, 1), Latch(true, false, 1), NoneOf(|ins|));
  }

  // Stored by S, it runs in the C until its time is up.
  lemma SettingShows(ins: seq<Association>, i: nat)
    requires Has(ins, SL) && FirstDuration(ins, SL) >= 1 && i < |ins| && ins[i].qualifier == S
    ensures !RunAlike(ins, 1)
  {
    hide Reached, SignalsOf, RunAlike;
    Start(ins);
    TwoActive(ins, i, i);
    Differ(ins, INITIAL, INITIAL, Two(|ins|, i, i));
  }

  // An SL of another duration, where the first never runs.
  lemma OtherLimitShows(ins: seq<Association>, k: nat)
    requires k < |ins| && ins[k].qualifier == SL && FirstDuration(ins, SL) == 0 && DurationMs(ins[k].duration) >= 1
    ensures !RunAlike(ins, 1)
  {
    hide Reached, SignalsOf, RunAlike;
    assert Has(ins, SL);
    Start(ins);
    TwoActive(ins, k, k);
    Differ(ins, INITIAL, INITIAL, Two(|ins|, k, k));
  }

  // The interpreter after j scans of the first SL, with P0 active all the time
  // or without it.
  ghost predicate Running(ins: seq<Association>, pulse: bool, j: nat) {
    exists l: Latch :: Reached(ins, l, Latch(j > 0, pulse, j)) && l.previous == pulse
  }

  lemma RunningStep(g: Signals, a: Association, pulse: bool, j: nat, l: Latch)
    requires g.hasSL && !g.p && g.p0 == pulse && !g.r && !g.s
    requires a.qualifier == SL && j < DurationMs(a.duration)
    ensures InterpreterStep(g, Some(a), 1, Latch(j > 0, pulse, j)).0 == Latch(true, pulse, j + 1)
    ensures Step(g, 1, l).0.previous == pulse
  {
    hide DurationMs;
  }

  lemma Held(ins: seq<Association>, i: nat)
    requires i < |ins| && ins[i].qualifier == P0
    ensures Running(ins, true, 0)
  {
    hide Reached, SignalsOf, FirstDuration;
    Start(ins);
    TwoActive(ins, i, i);
    Move(ins, INITIAL, INITIAL, Two(|ins|, i, i));
  }

  lemma {:induction false} RunOn(ins: seq<Association>, f: nat, i: nat, j: nat)
    requires f < |ins| && ins[f].qualifier == SL && DurationMs(ins[f].duration) == FirstDuration(ins, SL)
    requires i < |ins| && (i == f || ins[i].qualifier == P0) && j <= FirstDuration(ins, SL)
    ensures Running(ins, i != f, j)
    decreases j
  {
    hide Reached, SignalsOf, Step, InterpreterStep, FirstDuration;
    assert Has(ins, SL);
    if j == 0 {
      Start(ins);
      if i != f {
        Held(ins, i);
      }
    } else {
      RunOn(ins, f, i, j - 1);
      var l: Latch :| Reached(ins, l, Latch(j - 1 > 0, i != f, j - 1)) && l.previous == (i != f);
      TwoActive(ins, f, i);
      RunningStep(SignalsOf(ins, Two(|ins|, f, i)), ins[f], i != f, j - 1, l);
      Move(ins, l, Latch(j - 1 > 0, i != f, j - 1), Two(|ins|, f, i));
    }
  }

  // When the time is up the interpreter does not run the action, whatever else
  // runs it in the C: another association without time, ...
  lemma UntimedShows(ins: seq<Association>, i: nat)
    requires Has(ins, SL) && i < |ins| && (ins[i].qualifier == N || ins[i].qualifier == P || ins[i].qualifier == P0)
    ensures !RunAlike(ins, 1)
  {
    hide Reached, SignalsOf, RunAlike;
    var f := FirstHas(ins, SL);
    DurationNonNegative(ins, SL);
    var t := FirstDuration(ins, SL);
    var held, more := if ins[i].qualifier == P0 then i else f, if ins[i].qualifier == P0 then f else i;
    assert Has(ins, ins[i].qualifier);
    RunOn(ins, f, held, t);
    var l: Latch :| Reached(ins, l, Latch(t > 0, held != f, t)) && l.previous == (held != f);
    TwoActive(ins, f, more);
    Differ(ins, l, Latch(t > 0, held != f, t), Two(|ins|, f, more));
  }

  // ... or the first of several SL, which starts the time again.
  lemma SeveralShow(ins: seq<Association>)
    requires Has(ins, SL) && FirstDuration(ins, SL) >= 1 && !AtMostOne(ins, SL)
    ensures !RunAlike(ins, 1)
  {
    hide Reached, SignalsOf, RunAlike;
    var f := FirstHas(ins, SL);
    var i, j :| 0 <= i < j < |ins| && ins[i].qualifier == SL && ins[j].qualifier == SL;
    assert ins[f + 1..][j - f - 1] == ins[j];
    assert Has(ins[f + 1..], SL);
    var t := FirstDuration(ins, SL);
    RunOn(ins, f, f, t);
    var l: Latch :| Reached(ins, l, Latch(t > 0, false, t)) && l.previous == false;
    TwoActive(ins, f, f);
    Differ(ins, l, Latch(t > 0, false, t), Two(|ins|, f, f));
  }

  // An SL of one cycle, started and left: stopped in both, but the interpreter
  // keeps its time for a scan.
  lemma Stopped(ins: seq<Association>)
    requires Has(ins, SL) && FirstDuration(ins, SL) == 1
    ensures Reached(ins, Latch(false, false, 0), Latch(false, false, 2))
  {
    hide Reached, SignalsOf;
    var f := FirstHas(ins, SL);
    Started(ins, f);
    NoneActive(ins);
    Move(ins, Latch(true, false, 1), Latch(true, false, 1), NoneOf(|ins|));
  }

  // It is seen by an L that ever runs, and by any D.
  lemma OneCycleShows(ins: seq<Association>)
    requires Has(ins, SL) && FirstDuration(ins, SL) == 1
    requires (Has(ins, L) && FirstDuration(ins, L) >= 1) || (Has(ins, D) && FirstDuration(ins, D) >= 1)
    ensures !RunAlike(ins, 1)
  {
    hide Reached, SignalsOf, RunAlike;
    if Has(ins, L) && FirstDuration(ins, L) >= 1 {
      Stopped(ins);
      ApartInL(ins, 0, 2);
    } else if FirstDuration(ins, D) >= 2 {
      Stopped(ins);
      ApartInD(ins, 0, 2);
    } else {
      var f := FirstHas(ins, SL);
      var k := FirstHas(ins, D);
      Started(ins, f);
      TwoActive(ins, k, k);
      Differ(ins, Latch(true, false, 1), Latch(true, false, 1), Two(|ins|, k, k));
    }
  }

  // With S, so it is where SL never runs: the interpreter undoes what L or D ran.
  lemma SetAndTimedShow(ins: seq<Association>, i: nat)
    requires Has(ins, SL) && FirstDuration(ins, SL) == 0 && i < |ins| && ins[i].qualifier == S
    requires (Has(ins, L) && FirstDuration(ins, L) >= 1) || (Has(ins, D) && FirstDuration(ins, D) >= 1)
    ensures !RunAlike(ins, 1)
  {
    hide Reached, SignalsOf, RunAlike;
    Start(ins);
    if Has(ins, L) && FirstDuration(ins, L) >= 1 {
      var k := FirstHas(ins, L);
      TwoActive(ins, k, i);
      Differ(ins, INITIAL, INITIAL, Two(|ins|, k, i));
    } else {
      var k := FirstHas(ins, D);
      var n := FirstDuration(ins, D) - 1;
      Drift(ins, k, 0, 0, n);
      TwoActive(ins, k, i);
      Differ(ins, Latch(false, false, n), Latch(false, false, n), Two(|ins|, k, i));
    }
  }

  // ----- the theorem -----

  // Durations of D, SD and DS are a cycle at least.
  ghost predicate Whole(ins: seq<Association>) {
    forall k :: 0 <= k < |ins| && (ins[k].qualifier == D || ins[k].qualifier == SD || ins[k].qualifier == DS) ==>
      DurationMs(ins[k].duration) >= 1
  }

  lemma FirstIsWhole(ins: seq<Association>, q: Qualifier)
    requires Whole(ins) && Has(ins, q) && (q == D || q == SD || q == DS)
    ensures FirstDuration(ins, q) >= 1
  {
    var f := FirstHas(ins, q);
  }

  lemma OtherShows(ins: seq<Association>, q: Qualifier)
    requires Whole(ins) && !AsFirst(ins, q) && (q == L || q == D || (!Has(ins, SL) && (q == SD || q == DS)))
    ensures !RunAlike(ins, 1)
  {
    hide RunAlike;
    var k :| 0 <= k < |ins| && ins[k].qualifier == q && DurationMs(ins[k].duration) != FirstDuration(ins, q);
    assert Has(ins, q);
    DurationNonNegative(ins, q);
    if q != L { FirstIsWhole(ins, q); }
    if q == L || q == D { OtherDurationShows(ins, k); } else { OtherStoredShows(ins, k); }
  }

  lemma UnseenShows(ins: seq<Association>, q: Qualifier)
    requires Whole(ins) && !Unseen(ins, q) && Has(ins, SL) && FirstDuration(ins, SL) == 0 && (q == SD || q == DS)
    ensures !RunAlike(ins, 1)
  {
    hide RunAlike, Passed;
    var k :| 0 <= k < |ins| && ins[k].qualifier == q && DurationMs(ins[k].duration) != FirstDuration(ins, q)
      && !Passed(ins, Lesser(DurationMs(ins[k].duration), FirstDuration(ins, q)));
    assert Has(ins, q);
    FirstIsWhole(ins, q);
    SeenShows(ins, k);
  }

  lemma LimitShows(ins: seq<Association>)
    requires FirstDuration(ins, SL) == 0 && !AsFirst(ins, SL)
    ensures !RunAlike(ins, 1)
  {
    hide RunAlike;
    var k :| 0 <= k < |ins| && ins[k].qualifier == SL && DurationMs(ins[k].duration) != FirstDuration(ins, SL);
    OtherLimitShows(ins, k);
  }

  lemma {:induction false} NoDurationWithout(ins: seq<Association>, q: Qualifier)
    requires !Has(ins, q)
    ensures FirstDuration(ins, q) == 0
  {
    if ins == [] {
    } else {
      assert ins[0].qualifier != q;
      assert forall k :: 0 <= k < |ins[1..]| ==> ins[1..][k] == ins[k + 1];
      NoDurationWithout(ins[1..], q);
    }
  }

  lemma LimitedShows(ins: seq<Association>)
    requires Whole(ins) && Has(ins, SL) && !LimitedAlike(ins)
    ensures !RunAlike(ins, 1)
  {
    hide RunAlike, AsFirst, Unseen, AtMostOne, FirstDuration;
    var t := FirstDuration(ins, SL);
    DurationNonNegative(ins, SL);
    DurationNonNegative(ins, L);
    if i: nat :| i < |ins| && (ins[i].qualifier == N || ins[i].qualifier == P || ins[i].qualifier == P0) {
      UntimedShows(ins, i);
    } else if t >= 2 {
      LeavingShows(ins);
    } else if t == 0 && !AsFirst(ins, SL) {
      LimitShows(ins);
    } else if t == 1 && !AtMostOne(ins, SL) {
      SeveralShow(ins);
    } else if t == 1 && Has(ins, S) {
      var i := FirstHas(ins, S);
      SettingShows(ins, i);
    } else if !AsFirst(ins, L) {
      OtherShows(ins, L);
    } else if t == 0 && !Has(ins, S) {
      if !AsFirst(ins, D) { OtherShows(ins, D); }
      else if !Unseen(ins, SD) { UnseenShows(ins, SD); }
      else { UnseenShows(ins, DS); }
    } else {
      if Has(ins, D) { FirstIsWhole(ins, D); }
      if !Has(ins, D) && !Has(ins, L) { NoDurationWithout(ins, L); }
      if t == 1 {
        OneCycleShows(ins);
      } else {
        var i := FirstHas(ins, S);
        SetAndTimedShow(ins, i);
      }
    }
  }

  lemma OneTimerFits(ins: seq<Association>, scans: seq<seq<bool>>)
    requires OneTimerEach(ins, scans)
    ensures Fits(ins, scans)
  {
  }

  lemma UnitParity(ins: seq<Association>)
    requires Whole(ins)
    ensures RunAlike(ins, 1) <==> Alike(ins)
  {
    hide LimitedAlike, AsFirst, Executes, InterpretedExecutes, OneTimerEach;
    if Alike(ins) {
      forall scans | OneTimerEach(ins, scans) && |scans| > 0
        ensures Fits(ins, scans) && Executes(ins, 1, scans) == InterpretedExecutes(ins, 1, scans)
      {
        OneTimerFits(ins, scans);
        AlikeRuns(ins, scans);
      }
    } else if Has(ins, SL) {
      LimitedShows(ins);
    } else {
      var q := if !AsFirst(ins, L) then L else if !AsFirst(ins, D) then D else if !AsFirst(ins, SD) then SD else DS;
      OtherShows(ins, q);
    }
  }

  lemma AllWhole(inputs: seq<Association>, cycle: int)
    requires cycle > 0
    ensures Whole(InCycles(inputs, cycle))
  {
    hide CyclesOf;
  }

  // Generated C and interpreter run an action in the same scans of every run
  // exactly when its durations, in whole cycles, are alike.
  lemma ParityOverRuns(inputs: seq<Association>, cycle: int)
    requires cycle > 0
    ensures RunAlike(inputs, cycle) <==> Alike(InCycles(inputs, cycle))
  {
    hide RunAlike, Alike, CyclesOf;
    var ins := InCycles(inputs, cycle);
    assert Whole(ins) by { AllWhole(inputs, cycle); }
    AlikeInCycles(inputs, cycle);
    UnitParity(ins);
  }
}
