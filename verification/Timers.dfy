/**
 * The standard timers and the up counter as the generated code steps them
 * (IEC 61131-3:2003, sections 2.5.2.3.3 and 2.5.2.3.4), with closed forms over
 * whole runs for a constant preset.
 */
module Timers {

  // The state fields of one timer instance: Q, ET, _IN and _RUN.
  datatype Timer = Timer(q: bool, et: int, last: bool, running: bool)

  const RESET: Timer := Timer(false, 0, false, false)

  function Min(a: int, b: int): int {
    if a < b then a else b
  }

  function StepTon(t: Timer, input: bool, pt: int, cycle: int): Timer {
    if !input then t.(q := false, et := 0, last := false)
    else
      var et := Min(t.et + cycle, pt);
      t.(q := et >= pt, et := et, last := true)
  }

  function StepTof(t: Timer, input: bool, pt: int, cycle: int): Timer {
    if input then t.(q := true, et := 0, last := true)
    else if t.q then
      var et := Min(t.et + cycle, pt);
      t.(q := et < pt, et := et, last := false)
    else t.(last := false)
  }

  function StepTp(t: Timer, input: bool, pt: int, cycle: int): Timer {
    var start := input && !t.last && !t.running;
    var running := t.running || start;
    if !running then t.(q := false, last := input)
    else
      var et := Min((if start then 0 else t.et) + cycle, pt);
      Timer(et < pt, et, input, et < pt)
  }

  // One instance and the code emitted for a call of it.
  class TimerInstance {
    var q: bool
    var et: int
    var last: bool
    var running: bool

    function State(): Timer
      reads this
    {
      Timer(q, et, last, running)
    }

    constructor ()
      ensures State() == RESET
    {
      q, et, last, running := false, 0, false, false;
    }

    method Ton(input: bool, pt: int, cycle: int)
      modifies this
      ensures State() == StepTon(old(State()), input, pt, cycle)
    {
      if !input {
        q := false;
        et := 0;
      } else {
        et := Min(et + cycle, pt);
        q := et >= pt;
      }
      last := input;
    }

    method Tof(input: bool, pt: int, cycle: int)
      modifies this
      ensures State() == StepTof(old(State()), input, pt, cycle)
    {
      if input {
        q := true;
        et := 0;
      } else if q {
        et := Min(et + cycle, pt);
        if et >= pt { q := false; }
      }
      last := input;
    }

    method Tp(input: bool, pt: int, cycle: int)
      modifies this
      ensures State() == StepTp(old(State()), input, pt, cycle)
    {
      if input && !last && !running {
        running := true;
        et := 0;
        q := true;
      }
      if running {
        et := Min(et + cycle, pt);
        if et >= pt {
          running := false;
          q := false;
        } else {
          q := true;
        }
      } else {
        q := false;
      }
      last := input;
    }
  }

  // ----- runs -----

  datatype Kind = TON | TOF | TP

  function StepTimer(k: Kind, t: Timer, input: bool, pt: int, cycle: int): Timer {
    match k
    case TON => StepTon(t, input, pt, cycle)
    case TOF => StepTof(t, input, pt, cycle)
    case TP => StepTp(t, input, pt, cycle)
  }

  function AfterInputs(k: Kind, t: Timer, inputs: seq<bool>, pt: int, cycle: int): Timer {
    if inputs == [] then t
    else
      var n := |inputs| - 1;
      StepTimer(k, AfterInputs(k, t, inputs[..n], pt, cycle), inputs[n], pt, cycle)
  }

  // How many scans in a row, up to the last one, had the input at `value`.
  function Trailing(inputs: seq<bool>, value: bool): nat {
    if inputs == [] || inputs[|inputs| - 1] != value then 0
    else 1 + Trailing(inputs[..|inputs| - 1], value)
  }

  lemma Next(n: nat, cycle: int)
    ensures (n + 1) * cycle == n * cycle + cycle
    ensures cycle > 0 ==> n * cycle >= 0
  {
  }

  // TON: after n true scans in a row ET is min(n * c, PT) and Q holds exactly
  // when n * c has reached PT; a false input clears both.
  lemma {:induction false} TonClosedForm(inputs: seq<bool>, pt: int, cycle: int)
    requires pt >= 0 && cycle > 0
    ensures var t, n := AfterInputs(TON, RESET, inputs, pt, cycle), Trailing(inputs, true);
      && t.et == Min(n * cycle, pt)
      && (t.q <==> n > 0 && n * cycle >= pt)
  {
    if inputs == [] {
    } else {
      var k := |inputs| - 1;
      TonClosedForm(inputs[..k], pt, cycle);
      Next(Trailing(inputs[..k], true), cycle);
    }
  }

  predicate EverTrue(inputs: seq<bool>) {
    true in inputs
  }

  lemma NothingYet()
    ensures !EverTrue([])
  {
  }

  // The state after j off-scans, of `time` in all.
  predicate TofHolds(t: Timer, ever: bool, j: nat, time: int, pt: int) {
    && (t.q <==> ever && (j == 0 || time < pt))
    && (t.q ==> t.et == time)
    && (ever ==> t.et == Min(time, pt))
  }

  lemma TofStart(pt: int)
    ensures TofHolds(RESET, false, 0, 0, pt)
  {
  }

  lemma TofNext(t: Timer, input: bool, ever: bool, j: nat, time: int, pt: int, cycle: int)
    requires pt >= 0 && cycle > 0 && time >= 0 && (j == 0 ==> time == 0) && TofHolds(t, ever, j, time, pt)
    ensures TofHolds(StepTof(t, input, pt, cycle), ever || input, if input then 0 else j + 1,
                     if input then 0 else time + cycle, pt)
  {
  }

  // One scan more, the time of the off-scans so far being given.
  lemma TofScan(inputs: seq<bool>, pt: int, cycle: int, j: nat, time: int)
    requires inputs != [] && pt >= 0 && cycle > 0 && time >= 0 && (j == 0 ==> time == 0)
    requires var front := inputs[..|inputs| - 1];
      && j == Trailing(front, false) && (!EverTrue(front) ==> j == |front|)
      && TofHolds(AfterInputs(TOF, RESET, front, pt, cycle), EverTrue(front), j, time, pt)
    ensures var on := inputs[|inputs| - 1];
      && Trailing(inputs, false) == (if on then 0 else j + 1)
      && (!EverTrue(inputs) ==> Trailing(inputs, false) == |inputs|)
      && TofHolds(AfterInputs(TOF, RESET, inputs, pt, cycle), EverTrue(inputs), Trailing(inputs, false),
                  if on then 0 else time + cycle, pt)
  {
    hide StepTof, TofHolds;
    var n := |inputs| - 1;
    assert inputs == inputs[..n] + [inputs[n]];
    TofNext(AfterInputs(TOF, RESET, inputs[..n], pt, cycle), inputs[n], EverTrue(inputs[..n]), j, time, pt, cycle);
  }

  // TOF: Q holds while the input is true and for exactly the off-scans j with
  // j * c < PT; it stays false until the input is true for the first time.
  lemma {:induction false} TofClosedForm(inputs: seq<bool>, pt: int, cycle: int)
    requires pt >= 0 && cycle > 0
    ensures var t, j := AfterInputs(TOF, RESET, inputs, pt, cycle), Trailing(inputs, false);
      && TofHolds(t, EverTrue(inputs), j, j * cycle, pt)
      && (!EverTrue(inputs) ==> j == |inputs|)
  {
    hide StepTof, TofHolds, EverTrue;
    if inputs == [] {
      NothingYet();
      TofStart(pt);
    } else {
      hide Trailing, AfterInputs;
      var front := inputs[..|inputs| - 1];
      var j := Trailing(front, false);
      TofClosedForm(front, pt, cycle);
      Next(j, cycle);
      TofScan(inputs, pt, cycle, j, j * cycle);
    }
  }

  // TP, one pulse: started by a rising edge while at rest, Q is true exactly
  // in the scans j >= 1 from the edge with j * c < PT, whatever the input does,
  // up to and including the scan in which the pulse ends.
  lemma {:induction false} TpPulse(t: Timer, inputs: seq<bool>, pt: int, cycle: int)
    requires pt >= 0 && cycle > 0
    requires !t.running && !t.last
    requires |inputs| > 0 && inputs[0]
    requires |inputs| == 1 || (|inputs| - 1) * cycle < pt
    ensures var r, j := AfterInputs(TP, t, inputs, pt, cycle), |inputs|;
      && (r.q <==> j * cycle < pt)
      && r.running == r.q
      && r.et == Min(j * cycle, pt)
      && r.last == inputs[j - 1]
  {
    var k := |inputs| - 1;
    if k == 0 {
      assert AfterInputs(TP, t, inputs[..0], pt, cycle) == t;
    } else {
      Next(k, cycle);
      Next(k - 1, cycle);
      TpPulse(t, inputs[..k], pt, cycle);
    }
  }

  // No timer value leaves 64 bits when PT + c does not.
  lemma {:induction false} ElapsedTimeFits(k: Kind, inputs: seq<bool>, pt: int, cycle: int)
    requires pt >= 0 && cycle > 0 && pt + cycle < 0x8000_0000_0000_0000
    ensures var t := AfterInputs(k, RESET, inputs, pt, cycle);
      0 <= t.et <= pt && t.et + cycle < 0x8000_0000_0000_0000
  {
    if inputs == [] {
    } else {
      ElapsedTimeFits(k, inputs[..|inputs| - 1], pt, cycle);
    }
  }

  // ----- the up counter -----

  // Q, CV and _CU; the edge memory _CU is frozen while R is true.
  datatype Counter = Counter(q: bool, cv: int, last: bool)
  datatype CounterInput = CounterInput(cu: bool, r: bool)

  function StepCtu(c: Counter, i: CounterInput, pv: int): Counter {
    if i.r then Counter(0 >= pv, 0, c.last)
    else
      var cv := if i.cu && !c.last then c.cv + 1 else c.cv;
      Counter(cv >= pv, cv, i.cu)
  }

  class CounterInstance {
    var q: bool
    var cv: int
    var last: bool

    function State(): Counter
      reads this
    {
      Counter(q, cv, last)
    }

    constructor ()
      ensures State() == Counter(false, 0, false)
    {
      q, cv, last := false, 0, false;
    }

    method Ctu(i: CounterInput, pv: int)
      modifies this
      ensures State() == StepCtu(old(State()), i, pv)
    {
      if i.r {
        cv := 0;
      } else {
        if i.cu && !last { cv := cv + 1; }
        last := i.cu;
      }
      q := cv >= pv;
    }
  }

  function AfterCounts(inputs: seq<CounterInput>, pv: int): Counter {
    if inputs == [] then Counter(false, 0, false)
    else
      var n := |inputs| - 1;
      StepCtu(AfterCounts(inputs[..n], pv), inputs[n], pv)
  }

  // The CU samples of the scans without reset.
  function Counted(inputs: seq<CounterInput>): seq<bool> {
    if inputs == [] then []
    else
      var n := |inputs| - 1;
      if inputs[n].r then Counted(inputs[..n]) else Counted(inputs[..n]) + [inputs[n].cu]
  }

  // How many of those samples precede the last reset.
  function CountedBeforeReset(inputs: seq<CounterInput>): nat {
    if inputs == [] then 0
    else
      var n := |inputs| - 1;
      if inputs[n].r then |Counted(inputs[..n])| else CountedBeforeReset(inputs[..n])
  }

  predicate RisingAt(samples: seq<bool>, k: nat) {
    k < |samples| && samples[k] && (k == 0 || !samples[k - 1])
  }

  // Rising edges at positions from `start` on.
  function Edges(samples: seq<bool>, start: nat): nat {
    if |samples| <= start then 0
    else
      var n := |samples| - 1;
      Edges(samples[..n], start) + if RisingAt(samples, n) then 1 else 0
  }

  // CTU: CV is the number of rising edges of CU since the last reset, over the
  // scans without reset (an edge across a reset is an edge between its neighbours).
  lemma {:induction false} CtuCountsEdges(inputs: seq<CounterInput>, pv: int)
    ensures var c, samples := AfterCounts(inputs, pv), Counted(inputs);
      && CountedBeforeReset(inputs) <= |samples|
      && c.cv == Edges(samples, CountedBeforeReset(inputs))
      && (inputs != [] ==> (c.q <==> c.cv >= pv))
      && c.last == (|samples| > 0 && samples[|samples| - 1])
  {
    if inputs == [] {
    } else {
      var n := |inputs| - 1;
      CtuCountsEdges(inputs[..n], pv);
      var samples := Counted(inputs[..n]);
      if !inputs[n].r {
        assert (samples + [inputs[n].cu])[..|samples|] == samples;
      }
    }
  }
}
