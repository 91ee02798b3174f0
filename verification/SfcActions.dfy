/**
 * The action controller of a Sequential Function Chart: one `stored`,
 * `previous` and `elapsed` field for each action, updated once a scan from the
 * step flags of its associations (IEC 61131-3:2003, section 2.6.4).
 */
module SfcActions {
  import opened Wrappers

  datatype Qualifier = N | S | R | P | P0 | L | D | SD | DS | SL

  datatype Association = Association(qualifier: Qualifier, duration: Option<int>)

  // The latched fields of one action.
  datatype Latch = Latch(stored: bool, previous: bool, elapsed: int)

  const INITIAL: Latch := Latch(false, false, 0)

  // A missing or negative duration counts as zero.
  function DurationMs(d: Option<int>): int {
    if d.Some? && d.value > 0 then d.value else 0
  }

  predicate Has(inputs: seq<Association>, q: Qualifier) {
    exists i :: 0 <= i < |inputs| && inputs[i].qualifier == q
  }

  // `active[i]` is the flag of the step that association i belongs to.
  predicate Any(inputs: seq<Association>, active: seq<bool>, q: Qualifier)
    requires |active| == |inputs|
  {
    exists i :: 0 <= i < |inputs| && inputs[i].qualifier == q && active[i]
  }

  // The duration of the first association with the qualifier, active or not.
  function FirstDuration(inputs: seq<Association>, q: Qualifier): int {
    if inputs == [] then 0
    else if inputs[0].qualifier == q then DurationMs(inputs[0].duration)
    else FirstDuration(inputs[1..], q)
  }

  // What the emitted code of one action reads in a scan: for each qualifier
  // the disjunction of its step flags, and the durations it compares with.
  datatype Signals = Signals(
    n: bool, s: bool, r: bool, p: bool, p0: bool, hasP0: bool,
    l: bool, d: bool, sd: bool, ds: bool, sl: bool, hasSL: bool,
    // an SL flag other than the last one of the disjunction is set
    slBeforeLast: bool,
    tL: int, tD: int, tSD: int, tDS: int, tSL: int)
  {
    predicate Timed() { l || d || sd || ds || sl }
    predicate Untimed(previous: bool) { n || (p && !previous) || (hasP0 && !p0 && previous) }
    // The emitted guard is `a1 || ... || an && !stored`: `&&` binds tighter,
    // so only the last flag is qualified by it.
    predicate StartsLimited(stored: bool) { slBeforeLast || (sl && !stored) }
  }

  function SignalsOf(inputs: seq<Association>, active: seq<bool>): Signals
    requires |active| == |inputs|
  {
    Signals(Any(inputs, active, N), Any(inputs, active, S), Any(inputs, active, R),
            Any(inputs, active, P), Any(inputs, active, P0), Has(inputs, P0),
            Any(inputs, active, L), Any(inputs, active, D), Any(inputs, active, SD), Any(inputs, active, DS),
            Any(inputs, active, SL), Has(inputs, SL),
            exists i :: 0 <= i < |inputs| && inputs[i].qualifier == SL && active[i] && Has(inputs[i + 1..], SL),
            FirstDuration(inputs, L), FirstDuration(inputs, D), FirstDuration(inputs, SD),
            FirstDuration(inputs, DS), FirstDuration(inputs, SL))
  }

  // ----- the emitted step, as a function of the latch -----

  function AfterReset(g: Signals, l: Latch): Latch {
    var reset := if g.r then l.(stored := false, elapsed := 0) else l;
    if g.s then reset.(stored := true) else reset
  }

  // The timed associations: the latch after them, and whether L or D runs the body.
  function Timers(g: Signals, cycle: int, l: Latch): (Latch, bool) {
    var eL := if g.l then l.elapsed + cycle else l.elapsed;
    var eD := if g.d then eL + cycle else eL;
    var eSD := if g.sd then eD + cycle else eD;
    var eDS := if g.ds then eSD + cycle else eSD;
    (l.(stored := l.stored || (g.sd && eSD >= g.tSD) || (g.ds && eDS >= g.tDS), elapsed := eDS),
     (g.l && eL <= g.tL) || (g.d && eD >= g.tD))
  }

  // The stored action: limited by SL when there is such an association.
  function Stored(g: Signals, cycle: int, l: Latch): Latch {
    if !g.hasSL then l
    else
      var started := if g.StartsLimited(l.stored) then l.(stored := true, elapsed := 0) else l;
      if !started.stored then started
      else started.(elapsed := started.elapsed + cycle, stored := started.elapsed + cycle <= g.tSL)
  }

  function Step(g: Signals, cycle: int, l0: Latch): (Latch, bool) {
    var l1 := AfterReset(g, l0).(previous := g.p || g.p0);
    var (l2, timed) := Timers(g, cycle, l1);
    var l3 := Stored(g, cycle, l2);
    (if !g.Timed() && !l3.stored then l3.(elapsed := 0) else l3,
     (g.Untimed(l0.previous) || timed || l3.stored) && !g.r)
  }

  // The state fields of one action and the code emitted for it.
  class ActionControl {
    var stored: bool
    var previous: bool
    var elapsed: int

    function State(): Latch
      reads this
    {
      Latch(stored, previous, elapsed)
    }

    constructor ()
      ensures State() == INITIAL
    {
      stored, previous, elapsed := false, false, 0;
    }

    method Execute(g: Signals, cycle: int) returns (execute: bool)
      modifies this
      ensures (State(), execute) == Step(g, cycle, old(State()))
    {
      execute := ExecuteUntimed(g);
      var timed := ExecuteTimers(g, cycle);
      var limited := ExecuteStored(g, cycle);
      execute := execute || timed || limited;
      if !g.Timed() && !stored { elapsed := 0; }
      if g.r { execute := false; }
    }

    method ExecuteUntimed(g: Signals) returns (execute: bool)
      modifies this
      ensures State() == AfterReset(g, old(State())).(previous := g.p || g.p0)
      ensures execute == g.Untimed(old(previous))
    {
      execute := false;
      if g.r {
        stored := false;
        elapsed := 0;
      }
      if g.s { stored := true; }
      if g.n { execute := true; }
      if g.p && !previous { execute := true; }
      if g.hasP0 {
        if !g.p0 && previous { execute := true; }
      }
      previous := g.p || g.p0;
    }

    method ExecuteTimers(g: Signals, cycle: int) returns (execute: bool)
      modifies this
      ensures (State(), execute) == Timers(g, cycle, old(State()))
    {
      execute := false;
      if g.l {
        elapsed := elapsed + cycle;
        if elapsed <= g.tL { execute := true; }
      }
      if g.d {
        elapsed := elapsed + cycle;
        if elapsed >= g.tD { execute := true; }
      }
      if g.sd {
        elapsed := elapsed + cycle;
        if elapsed >= g.tSD { stored := true; }
      }
      if g.ds {
        elapsed := elapsed + cycle;
        if elapsed >= g.tDS { stored := true; }
      }
    }

    method ExecuteStored(g: Signals, cycle: int) returns (execute: bool)
      modifies this
      ensures State() == Stored(g, cycle, old(State())) && execute == stored
    {
      execute := false;
      if g.hasSL {
        if g.StartsLimited(stored) {
          stored := true;
          elapsed := 0;
        }
        if stored {
          elapsed := elapsed + cycle;
          if elapsed <= g.tSL { execute := true; } else { stored := false; }
        }
      } else {
        if stored { execute := true; }
      }
    }
  }

  // ----- runs -----

  predicate Fits(inputs: seq<Association>, scans: seq<seq<bool>>) {
    forall k :: 0 <= k < |scans| ==> |scans[k]| == |inputs|
  }

  function After(inputs: seq<Association>, cycle: int, scans: seq<seq<bool>>): Latch
    requires Fits(inputs, scans)
  {
    if scans == [] then INITIAL
    else
      var n := |scans| - 1;
      Step(SignalsOf(inputs, scans[n]), cycle, After(inputs, cycle, scans[..n])).0
  }

  // Whether the action body runs in the last of the scans.
  predicate Executes(inputs: seq<Association>, cycle: int, scans: seq<seq<bool>>)
    requires Fits(inputs, scans) && |scans| > 0
  {
    var n := |scans| - 1;
    Step(SignalsOf(inputs, scans[n]), cycle, After(inputs, cycle, scans[..n])).1
  }

  // ----- one association -----

  function Alone(q: Qualifier, t: int): seq<Association> {
    [Association(q, Some(t))]
  }

  function Flags(acts: seq<bool>): (scans: seq<seq<bool>>)
    ensures |scans| == |acts| && forall k :: 0 <= k < |acts| ==> scans[k] == [acts[k]]
  {
    seq(|acts|, k requires 0 <= k < |acts| => [acts[k]])
  }

  // The length of the current activation: trailing active scans.
  function Activation(acts: seq<bool>): nat {
    if acts == [] || !acts[|acts| - 1] then 0 else 1 + Activation(acts[..|acts| - 1])
  }

  predicate ActiveBefore(acts: seq<bool>) {
    |acts| > 1 && acts[|acts| - 2]
  }

  // What a lone association signals.
  function LoneSignals(q: Qualifier, t: int, b: bool): Signals {
    var d := DurationMs(Some(t));
    Signals(q == N && b, q == S && b, q == R && b, q == P && b, q == P0 && b, q == P0,
            q == L && b, q == D && b, q == SD && b, q == DS && b, q == SL && b, q == SL, false,
            if q == L then d else 0, if q == D then d else 0, if q == SD then d else 0,
            if q == DS then d else 0, if q == SL then d else 0)
  }

  lemma AloneHas(q: Qualifier, t: int, b: bool, p: Qualifier)
    ensures var inputs := Alone(q, t);
      && (Has(inputs, p) <==> p == q) && (Any(inputs, [b], p) <==> p == q && b)
      && FirstDuration(inputs, p) == if p == q then DurationMs(Some(t)) else 0
  {
    var inputs := Alone(q, t);
    assert inputs[0].qualifier == q && inputs[1..] == [];
    assert FirstDuration(inputs[1..], p) == 0;
  }

  lemma SignalsAlone(q: Qualifier, t: int, b: bool)
    ensures SignalsOf(Alone(q, t), [b]) == LoneSignals(q, t, b)
  {
    var inputs := Alone(q, t);
    assert |inputs| == 1 && !Has(inputs[0 + 1..], SL) by { assert inputs[0 + 1..] == []; }
    hide Has, Any, FirstDuration, Alone, DurationMs;
    forall p
      ensures (Has(inputs, p) <==> p == q) && (Any(inputs, [b], p) <==> p == q && b)
      ensures FirstDuration(inputs, p) == if p == q then DurationMs(Some(t)) else 0
    {
      AloneHas(q, t, b, p);
    }
  }

  // The latch after the scans of a lone association, and whether the last ran.
  function Trace(q: Qualifier, t: int, cycle: int, acts: seq<bool>): (Latch, bool) {
    if acts == [] then (INITIAL, false)
    else
      var n := |acts| - 1;
      Step(LoneSignals(q, t, acts[n]), cycle, Trace(q, t, cycle, acts[..n]).0)
  }

  predicate Runs(q: Qualifier, t: int, cycle: int, acts: seq<bool>) {
    Trace(q, t, cycle, acts).1
  }

  function LatchOf(q: Qualifier, t: int, cycle: int, acts: seq<bool>): Latch {
    Trace(q, t, cycle, acts).0
  }

  // The trace is what the controller of an action with one association does.
  lemma {:induction false} TraceIsTheController(q: Qualifier, t: int, cycle: int, acts: seq<bool>)
    ensures LatchOf(q, t, cycle, acts) == After(Alone(q, t), cycle, Flags(acts))
    ensures |acts| > 0 ==> (Runs(q, t, cycle, acts) <==> Executes(Alone(q, t), cycle, Flags(acts)))
  {
    hide Step, SignalsOf, LoneSignals;
    if |acts| == 0 {
    } else {
      var n := |acts| - 1;
      TraceIsTheController(q, t, cycle, acts[..n]);
      assert Flags(acts)[..n] == Flags(acts[..n]);
      SignalsAlone(q, t, acts[n]);
    }
  }

  lemma Product(n: int, c: int, t: int)
    requires c > 0 && t >= 0
    ensures n * c <= t <==> n <= t / c
  {
    assert t == (t / c) * c + t % c;
    if n <= t / c {
      assert n * c <= (t / c) * c by { Monotone(n, t / c, c); }
    } else {
      assert n * c >= (t / c + 1) * c by { Monotone(t / c + 1, n, c); }
      assert (t / c + 1) * c == (t / c) * c + c;
    }
  }

  lemma Monotone(a: int, b: int, c: int)
    requires a <= b && c >= 0
    ensures a * c <= b * c
  {
    assert (b - a) * c >= 0;
  }

  // N: exactly the active scans.
  lemma NonStoredRuns(t: int, cycle: int, acts: seq<bool>)
    requires |acts| > 0
    ensures Runs(N, t, cycle, acts) <==> acts[|acts| - 1]
    ensures LatchOf(N, t, cycle, acts) == INITIAL
  {
    var n := |acts| - 1;
    if n > 0 { NonStoredRuns(t, cycle, acts[..n]); } else { assert LatchOf(N, t, cycle, acts[..n]) == INITIAL; }
  }

  // P: once for each activation, in its first scan.
  lemma PulseRuns(t: int, cycle: int, acts: seq<bool>)
    requires |acts| > 0
    ensures Runs(P, t, cycle, acts) <==> Activation(acts) == 1
    ensures LatchOf(P, t, cycle, acts) == Latch(false, acts[|acts| - 1], 0)
  {
    var n := |acts| - 1;
    if n > 0 { PulseRuns(t, cycle, acts[..n]); } else { assert LatchOf(P, t, cycle, acts[..n]) == INITIAL; }
  }

  // P0: once for each deactivation, in the first scan after it.
  lemma PulseFallingRuns(t: int, cycle: int, acts: seq<bool>)
    requires |acts| > 0
    ensures Runs(P0, t, cycle, acts) <==> !acts[|acts| - 1] && ActiveBefore(acts)
    ensures LatchOf(P0, t, cycle, acts) == Latch(false, acts[|acts| - 1], 0)
  {
    var n := |acts| - 1;
    if n > 0 { PulseFallingRuns(t, cycle, acts[..n]); } else { assert LatchOf(P0, t, cycle, acts[..n]) == INITIAL; }
  }

  lemma NextActivation(acts: seq<bool>, cycle: int)
    requires |acts| > 0
    ensures var n := |acts| - 1;
      Activation(acts) * cycle == if acts[n] then Activation(acts[..n]) * cycle + cycle else 0
  {
    var n := |acts| - 1;
    OneMore(Activation(acts[..n]), cycle);
  }

  lemma OneMore(n: int, c: int)
    ensures (1 + n) * c == n * c + c
  {
  }

  lemma LimitedLatch(t: int, cycle: int, acts: seq<bool>)
    ensures LatchOf(L, t, cycle, acts) == Latch(false, false, Activation(acts) * cycle)
  {
    if |acts| > 0 {
      var n := |acts| - 1;
      LimitedLatch(t, cycle, acts[..n]);
      NextActivation(acts, cycle);
    }
  }

  // L: exactly the first floor(T / c) scans of each activation.
  lemma LimitedRuns(t: int, cycle: int, acts: seq<bool>)
    requires |acts| > 0 && cycle > 0 && t >= 0
    ensures Runs(L, t, cycle, acts) <==> 1 <= Activation(acts) <= t / cycle
  {
    var n := |acts| - 1;
    LimitedLatch(t, cycle, acts[..n]);
    NextActivation(acts, cycle);
    Product(Activation(acts), cycle, t);
  }

  lemma DelayedLatch(t: int, cycle: int, acts: seq<bool>)
    ensures LatchOf(D, t, cycle, acts) == Latch(false, false, Activation(acts) * cycle)
  {
    if |acts| > 0 {
      var n := |acts| - 1;
      DelayedLatch(t, cycle, acts[..n]);
      NextActivation(acts, cycle);
    }
  }

  // D: from the first scan k of an activation with k * c >= T to its end.
  lemma DelayedRuns(t: int, cycle: int, acts: seq<bool>)
    requires |acts| > 0 && cycle > 0 && t >= 0
    ensures Runs(D, t, cycle, acts) <==> acts[|acts| - 1] && Activation(acts) * cycle >= t
  {
    var n := |acts| - 1;
    DelayedLatch(t, cycle, acts[..n]);
    NextActivation(acts, cycle);
  }

  // Some activation so far lasted until k * c >= T.
  ghost predicate HeldLongEnough(t: int, cycle: int, acts: seq<bool>) {
    exists k :: 0 < k <= |acts| && acts[k - 1] && Activation(acts[..k]) * cycle >= t
  }

  lemma HeldNext(t: int, cycle: int, acts: seq<bool>)
    requires |acts| > 0
    ensures var n := |acts| - 1;
      HeldLongEnough(t, cycle, acts) <==>
      HeldLongEnough(t, cycle, acts[..n]) || (acts[n] && Activation(acts) * cycle >= t)
  {
    hide Activation;
    var n := |acts| - 1;
    assert acts[..|acts|] == acts;
    if HeldLongEnough(t, cycle, acts[..n]) {
      var k :| 0 < k <= n && acts[..n][k - 1] && Activation(acts[..n][..k]) * cycle >= t;
      assert acts[..n][..k] == acts[..k];
      assert 0 < k <= |acts| && acts[k - 1] && Activation(acts[..k]) * cycle >= t;
    } else {
      forall k | 0 < k <= n && acts[k - 1] ensures Activation(acts[..k]) * cycle < t {
        assert acts[..n][..k] == acts[..k] && acts[..n][k - 1];
      }
    }
  }

  // SD and DS alike: from the first scan of an activation that lasted T, for
  // good; the step need not stay active.
  lemma {:induction false} StoredDelayedRuns(q: Qualifier, t: int, cycle: int, acts: seq<bool>)
    requires (q == SD || q == DS) && cycle > 0 && t >= 0
    ensures |acts| > 0 ==> (Runs(q, t, cycle, acts) <==> HeldLongEnough(t, cycle, acts))
    ensures LatchOf(q, t, cycle, acts).stored <==> HeldLongEnough(t, cycle, acts)
    ensures !HeldLongEnough(t, cycle, acts) ==> LatchOf(q, t, cycle, acts).elapsed == Activation(acts) * cycle
    ensures !LatchOf(q, t, cycle, acts).previous
  {
    if |acts| == 0 {
    } else {
      var n := |acts| - 1;
      StoredDelayedRuns(q, t, cycle, acts[..n]);
      NextActivation(acts, cycle);
      HeldNext(t, cycle, acts);
    }
  }

  // ----- SL -----

  lemma LoneLimitedStep(t: int, cycle: int, b: bool, l: Latch)
    ensures Step(LoneSignals(SL, t, b), cycle, l) ==
      var e := (if l.stored then l.elapsed else 0) + cycle;
      if !l.stored && !b then (INITIAL, false)
      else if e <= DurationMs(Some(t)) then (Latch(true, false, e), true)
      else (Latch(false, false, if b then e else 0), false)
  {
  }

  // Once started from rest, SL runs for exactly floor(T / c) scans, whatever
  // the step does meanwhile, then rests for one scan.
  lemma {:induction false} StoredLimitedRuns(t: int, cycle: int, before: seq<bool>, acts: seq<bool>)
    requires cycle > 0 && t >= 0
    requires !LatchOf(SL, t, cycle, before).stored
    requires 0 < |acts| <= t / cycle + 1 && acts[0]
    ensures Runs(SL, t, cycle, before + acts) <==> |acts| <= t / cycle
    ensures LatchOf(SL, t, cycle, before + acts).stored <==> |acts| <= t / cycle
    ensures |acts| <= t / cycle ==> LatchOf(SL, t, cycle, before + acts).elapsed == |acts| * cycle
  {
    var n := |acts| - 1;
    var all := before + acts;
    assert all[..|all| - 1] == before + acts[..n];
    var l := LatchOf(SL, t, cycle, before + acts[..n]);
    assert all[|all| - 1] == acts[n];
    LoneLimitedStep(t, cycle, acts[n], l);
    Product(|acts|, cycle, t);
    if n == 0 {
      assert before + acts[..0] == before;
    } else {
      StoredLimitedRuns(t, cycle, before, acts[..n]);
      assert (n + 1) * cycle == n * cycle + cycle;
    }
  }

  // ----- several SL associations -----

  // Whatever else an action has: while an SL flag other than the last is set,
  // `a || b && !stored` starts the time again in every scan, and the action runs.
  lemma EarlierFlagRestarts(inputs: seq<Association>, cycle: int, scans: seq<seq<bool>>, i: nat, j: nat)
    requires 0 < cycle <= FirstDuration(inputs, SL) && Fits(inputs, scans) && |scans| > 0
    requires i < j < |inputs| && inputs[i].qualifier == SL && inputs[j].qualifier == SL && scans[|scans| - 1][i]
    requires !Any(inputs, scans[|scans| - 1], R)
    ensures Executes(inputs, cycle, scans)
  {
    var active := scans[|scans| - 1];
    assert inputs[i + 1..][j - i - 1] == inputs[j];
    assert Has(inputs[i + 1..], SL);
    var g := SignalsOf(inputs, active);
    assert g.slBeforeLast && g.hasSL && !g.r;
  }

  predicate OnlyLimited(inputs: seq<Association>) {
    forall k :: 0 <= k < |inputs| ==> inputs[k].qualifier == SL
  }

  // How many scans in a row, up to the last one, ran the action.
  function StreakOf(inputs: seq<Association>, cycle: int, scans: seq<seq<bool>>): nat
    requires Fits(inputs, scans)
  {
    if scans == [] || !Executes(inputs, cycle, scans) then 0 else 1 + StreakOf(inputs, cycle, scans[..|scans| - 1])
  }

  lemma OnlyLimitedSignals(inputs: seq<Association>, active: seq<bool>)
    requires OnlyLimited(inputs) && |active| == |inputs|
    ensures var g := SignalsOf(inputs, active);
      && !g.n && !g.s && !g.r && !g.p && !g.p0 && !g.hasP0 && !g.l && !g.d && !g.sd && !g.ds
      && g.hasSL == (inputs != []) && (|inputs| <= 1 ==> !g.slBeforeLast)
      && g.tSL == FirstDuration(inputs, SL)
  {
    if inputs != [] { assert inputs[0].qualifier == SL; }
    if |inputs| == 1 { assert inputs[0 + 1..] == []; }
  }

  lemma {:induction false} DurationNonNegative(inputs: seq<Association>, q: Qualifier)
    ensures FirstDuration(inputs, q) >= 0
  {
    if inputs == [] {
    } else {
      DurationNonNegative(inputs[1..], q);
    }
  }

  // The step of an action with SL associations only.
  lemma LimitedStep(g: Signals, cycle: int, l: Latch)
    requires !g.n && !g.s && !g.r && !g.p && !g.p0 && !g.hasP0 && !g.l && !g.d && !g.sd && !g.ds && g.hasSL
    ensures Step(g, cycle, l) ==
      var again := g.StartsLimited(l.stored);
      var e := (if again then 0 else l.elapsed) + cycle;
      if !l.stored && !again then (Latch(false, false, if g.sl then l.elapsed else 0), false)
      else if e <= g.tSL then (Latch(true, false, e), true)
      else (Latch(false, false, if g.sl then e else 0), false)
  {
  }

  lemma {:induction false} NeverStored(inputs: seq<Association>, cycle: int, scans: seq<seq<bool>>)
    requires OnlyLimited(inputs) && cycle > 0 && FirstDuration(inputs, SL) < cycle && Fits(inputs, scans)
    ensures !After(inputs, cycle, scans).stored && (scans != [] ==> !Executes(inputs, cycle, scans))
    decreases |scans|
  {
    if scans == [] {
    } else {
      var n := |scans| - 1;
      NeverStored(inputs, cycle, scans[..n]);
      OnlyLimitedSignals(inputs, scans[n]);
      var g := SignalsOf(inputs, scans[n]);
      hide SignalsOf, FirstDuration;
      if g.hasSL { LimitedStep(g, cycle, After(inputs, cycle, scans[..n])); }
    }
  }

  // Bookkeeping of one scan: a streak of s scans takes s * cycle.
  ghost predicate Keeps(t: int, cycle: int, l: Latch, streak: nat) {
    if l.stored then l.elapsed == streak * cycle && l.elapsed <= t else streak == 0
  }

  lemma AtRest(t: int, cycle: int)
    ensures Keeps(t, cycle, INITIAL, 0)
  {
  }

  lemma LimitedKeeps(g: Signals, cycle: int, l: Latch, streak: nat)
    requires !g.n && !g.s && !g.r && !g.p && !g.p0 && !g.hasP0 && !g.l && !g.d && !g.sd && !g.ds && g.hasSL
    requires !g.slBeforeLast && g.tSL >= 0 && cycle > 0 && Keeps(g.tSL, cycle, l, streak)
    ensures var (m, ran) := Step(g, cycle, l); Keeps(g.tSL, cycle, m, if ran then streak + 1 else 0)
  {
    LimitedStep(g, cycle, l);
    assert (streak + 1) * cycle == streak * cycle + cycle;
    assert streak == 0 ==> streak * cycle == 0;
  }

  lemma {:induction false} SingleKeeps(inputs: seq<Association>, cycle: int, scans: seq<seq<bool>>)
    requires OnlyLimited(inputs) && |inputs| == 1 && cycle > 0 && Fits(inputs, scans)
    ensures Keeps(FirstDuration(inputs, SL), cycle, After(inputs, cycle, scans), StreakOf(inputs, cycle, scans))
    decreases |scans|
  {
    hide Keeps, Step, SignalsOf, FirstDuration;
    DurationNonNegative(inputs, SL);
    if scans == [] {
      AtRest(FirstDuration(inputs, SL), cycle);
    } else {
      var n := |scans| - 1;
      SingleKeeps(inputs, cycle, scans[..n]);
      OnlyLimitedSignals(inputs, scans[n]);
      LimitedKeeps(SignalsOf(inputs, scans[n]), cycle, After(inputs, cycle, scans[..n]),
          StreakOf(inputs, cycle, scans[..n]));
    }
  }

  // A lone SL association never runs the action more than floor(T / c) scans in
  // a row.
  lemma StoredLimitedBound(t: int, cycle: int, acts: seq<bool>)
    requires cycle > 0 && t >= 0
    ensures StreakOf(Alone(SL, t), cycle, Flags(acts)) <= t / cycle
  {
    var inputs := Alone(SL, t);
    AloneHas(SL, t, true, SL);
    assert OnlyLimited(inputs) && |inputs| == 1;
    hide Alone, StreakOf, FirstDuration;
    SingleKeeps(inputs, cycle, Flags(acts));
    Product(StreakOf(inputs, cycle, Flags(acts)), cycle, t);
  }

  lemma NoReset(inputs: seq<Association>, active: seq<bool>)
    requires OnlyLimited(inputs) && |active| == |inputs|
    ensures !Any(inputs, active, R)
  {
  }

  lemma {:induction false} RestartedStreak(inputs: seq<Association>, cycle: int, scans: seq<seq<bool>>)
    requires OnlyLimited(inputs) && |inputs| > 1 && 0 < cycle <= FirstDuration(inputs, SL) && Fits(inputs, scans)
    requires forall k :: 0 <= k < |scans| ==> scans[k][0]
    ensures StreakOf(inputs, cycle, scans) == |scans|
    decreases |scans|
  {
    hide Executes, SignalsOf, FirstDuration;
    if scans == [] {
    } else {
      OnlyLimitedSignals(inputs, scans[|scans| - 1]);
      NoReset(inputs, scans[|scans| - 1]);
      EarlierFlagRestarts(inputs, cycle, scans, 0, 1);
      RestartedStreak(inputs, cycle, scans[..|scans| - 1]);
    }
  }

  // No run of an action with SL associations only exceeds floor(T / c) scans in
  // a row exactly when there is one association, or T is below the cycle time.
  lemma LimitedBound(inputs: seq<Association>, cycle: int)
    requires OnlyLimited(inputs) && cycle > 0
    ensures (forall scans | Fits(inputs, scans) :: StreakOf(inputs, cycle, scans) <= FirstDuration(inputs, SL) / cycle)
            <==> |inputs| <= 1 || FirstDuration(inputs, SL) < cycle
  {
    hide StreakOf, FirstDuration, After, Executes;
    var t := FirstDuration(inputs, SL);
    DurationNonNegative(inputs, SL);
    NoDuration();
    if t < cycle {
      forall scans | Fits(inputs, scans) ensures StreakOf(inputs, cycle, scans) <= t / cycle {
        NeverStored(inputs, cycle, scans);
        NoStreak(inputs, cycle, scans);
      }
    } else if |inputs| == 1 {
      forall scans | Fits(inputs, scans) ensures StreakOf(inputs, cycle, scans) <= t / cycle {
        SingleKeeps(inputs, cycle, scans);
        Product(StreakOf(inputs, cycle, scans), cycle, t);
      }
    } else if |inputs| > 1 {
      var scans := seq(t / cycle + 1, k => seq(|inputs|, i => i == 0));
      RestartedStreak(inputs, cycle, scans);
      assert Fits(inputs, scans) && StreakOf(inputs, cycle, scans) > t / cycle;
    }
  }

  lemma NoDuration()
    ensures FirstDuration([], SL) == 0
  {
  }

  lemma NoStreak(inputs: seq<Association>, cycle: int, scans: seq<seq<bool>>)
    requires Fits(inputs, scans) && (scans != [] ==> !Executes(inputs, cycle, scans))
    ensures StreakOf(inputs, cycle, scans) == 0
  {
  }

  // ----- S against R -----

  function SetReset(s: seq<bool>, r: seq<bool>): (scans: seq<seq<bool>>)
    requires |s| == |r|
    ensures |scans| == |s| && forall k :: 0 <= k < |s| ==> scans[k] == [s[k], r[k]]
  {
    seq(|s|, k requires 0 <= k < |s| => [s[k], r[k]])
  }

  // The last set is not followed by a reset.
  ghost predicate SetLast(s: seq<bool>, r: seq<bool>)
    requires |s| == |r|
  {
    exists j :: 0 <= j < |s| && s[j] && forall k :: j < k < |r| ==> !r[k]
  }

  // An action set by one step and reset by another runs in every scan without
  // reset since the last set; a set and a reset in the same scan leave it set.
  lemma {:induction false} SetResetRuns(cycle: int, s: seq<bool>, r: seq<bool>)
    requires |s| == |r|
    ensures var inputs := [Association(S, None), Association(R, None)];
      && After(inputs, cycle, SetReset(s, r)) == Latch(SetLast(s, r), false, 0)
      && (|s| > 0 ==> (Executes(inputs, cycle, SetReset(s, r)) <==> SetLast(s, r) && !r[|r| - 1]))
  {
    var inputs := [Association(S, None), Association(R, None)];
    hide SetLast, After, Executes, SetReset, Fits;
    if |s| == 0 {
      SetResetStart(inputs, cycle, s, r);
    } else {
      var n := |s| - 1;
      SetResetRuns(cycle, s[..n], r[..n]);
      SetResetFront(s, r);
      SetResetNext(inputs, cycle, SetReset(s, r), s[n], r[n], SetLast(s[..n], r[..n]));
      SetLastNext(s, r);
    }
  }

  lemma SetResetStart(inputs: seq<Association>, cycle: int, s: seq<bool>, r: seq<bool>)
    requires |s| == |r| == 0
    ensures Fits(inputs, SetReset(s, r)) && After(inputs, cycle, SetReset(s, r)) == INITIAL && !SetLast(s, r)
  {
  }

  lemma SetResetFront(s: seq<bool>, r: seq<bool>)
    requires |s| == |r| > 0
    ensures Fits([Association(S, None), Association(R, None)], SetReset(s, r))
    ensures var n := |s| - 1; SetReset(s, r)[..n] == SetReset(s[..n], r[..n]) && SetReset(s, r)[n] == [s[n], r[n]]
  {
  }

  lemma SetResetNext(inputs: seq<Association>, cycle: int, scans: seq<seq<bool>>, s: bool, r: bool, stored: bool)
    requires inputs == [Association(S, None), Association(R, None)] && Fits(inputs, scans) && |scans| > 0
    requires scans[|scans| - 1] == [s, r] && After(inputs, cycle, scans[..|scans| - 1]) == Latch(stored, false, 0)
    ensures var now := s || (stored && !r);
      After(inputs, cycle, scans) == Latch(now, false, 0) && (Executes(inputs, cycle, scans) <==> now && !r)
  {
    hide SignalsOf, Step;
    SetResetSignals(s, r);
    SetResetStep(SignalsOf([Association(S, None), Association(R, None)], [s, r]), cycle, stored);
  }

  lemma SetResetStep(g: Signals, cycle: int, stored: bool)
    requires !g.n && !g.p && !g.p0 && !g.hasP0 && !g.Timed() && !g.hasSL
    ensures var now := g.s || (stored && !g.r);
      Step(g, cycle, Latch(stored, false, 0)) == (Latch(now, false, 0), now && !g.r)
  {
  }

  lemma SetResetSignals(s: bool, r: bool)
    ensures var g := SignalsOf([Association(S, None), Association(R, None)], [s, r]);
      g.s == s && g.r == r && !g.n && !g.p && !g.p0 && !g.hasP0 && !g.Timed() && !g.hasSL
  {
    var inputs, active := [Association(S, None), Association(R, None)], [s, r];
    if s { assert inputs[0].qualifier == S && active[0]; }
    if r { assert inputs[1].qualifier == R && active[1]; }
  }

  lemma SetLastNext(s: seq<bool>, r: seq<bool>)
    requires |s| == |r| > 0
    ensures var n := |s| - 1; SetLast(s, r) <==> s[n] || (SetLast(s[..n], r[..n]) && !r[n])
  {
    var n := |s| - 1;
    if j :| 0 <= j < |s| && s[j] && forall k :: j < k < |r| ==> !r[k] {
      if j < n { assert s[..n][j] && forall k :: j < k < n ==> !r[..n][k]; }
    }
    if SetLast(s[..n], r[..n]) && !r[n] {
      var j :| 0 <= j < n && s[..n][j] && forall k :: j < k < n ==> !r[..n][k];
      forall k | j < k < |r| ensures !r[k] { if k < n { assert !r[..n][k]; } }
      assert s[j];
    }
  }
}
