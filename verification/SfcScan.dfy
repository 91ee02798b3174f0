/**
 * Evolution of a Sequential Function Chart in one scan: fire flags taken from
 * one snapshot, application in priority order, and the `consumed` flags that
 * resolve conflicts (IEC 61131-3:2003, section 2.6.5).
 */
module SfcScan {
  import opened Wrappers

  type StepName = string

  datatype Step = Step(name: StepName, initial: bool)
  datatype Transition = Transition(from: seq<StepName>, to: seq<StepName>, hasCondition: bool, priority: Option<int>)
  datatype Chart = Chart(steps: seq<Step>, transitions: seq<Transition>)
  datatype Arc = Arc(from: seq<StepName>, to: seq<StepName>)

  const LAST_PRIORITY: int := 0x7FFF_FFFF_FFFF_FFFF

  // The steps a transition leaves and enters. One without any steps joins the
  // step at its own position to the next; one with only one side is ignored.
  function TransitionSteps(chart: Chart, i: nat): Option<Arc>
    requires i < |chart.transitions|
  {
    var t := chart.transitions[i];
    if t.from != [] || t.to != [] then
      if t.from == [] || t.to == [] then None else Some(Arc(t.from, t.to))
    else if i + 1 < |chart.steps| then
      Some(Arc([chart.steps[i].name], [chart.steps[i + 1].name]))
    else None
  }

  function Names(steps: seq<StepName>): set<StepName> {
    set s | s in steps
  }

  function Sources(chart: Chart, i: nat): (steps: set<StepName>)
    requires i < |chart.transitions|
    ensures TransitionSteps(chart, i).Some? ==> steps != {}
  {
    var arc := TransitionSteps(chart, i);
    if arc.Some? then
      assert arc.value.from[0] in Names(arc.value.from);
      Names(arc.value.from)
    else {}
  }

  function Targets(chart: Chart, i: nat): (steps: set<StepName>)
    requires i < |chart.transitions|
    ensures TransitionSteps(chart, i).Some? ==> steps != {}
  {
    var arc := TransitionSteps(chart, i);
    if arc.Some? then
      assert arc.value.to[0] in Names(arc.value.to);
      Names(arc.value.to)
    else {}
  }

  // `truth[i]` is the value of condition i before any transition is applied.
  predicate Enabled(chart: Chart, truth: seq<bool>, active: set<StepName>, i: nat)
    requires |truth| == |chart.transitions|
  {
    && i < |chart.transitions|
    && TransitionSteps(chart, i).Some?
    && Sources(chart, i) <= active
    && chart.transitions[i].hasCondition
    && truth[i]
  }

  // ----- application order -----

  function Priority(chart: Chart, i: nat): int
    requires i < |chart.transitions|
  {
    if chart.transitions[i].priority.Some? then chart.transitions[i].priority.value else LAST_PRIORITY
  }

  predicate Before(chart: Chart, i: nat, j: nat) {
    i < |chart.transitions| && j < |chart.transitions| &&
    (Priority(chart, i) < Priority(chart, j) || (Priority(chart, i) == Priority(chart, j) && i < j))
  }

  predicate InRange(chart: Chart, order: seq<nat>) {
    forall k :: 0 <= k < |order| ==> order[k] < |chart.transitions|
  }

  predicate Sorted(chart: Chart, order: seq<nat>) {
    forall k, l :: 0 <= k < l < |order| ==> Before(chart, order[k], order[l])
  }

  function Insert(chart: Chart, order: seq<nat>, i: nat): seq<nat> {
    if order == [] then [i]
    else if Before(chart, i, order[0]) then [i] + order
    else [order[0]] + Insert(chart, order[1..], i)
  }

  // Transitions 0..n that satisfy `keep`, sorted by (priority, index).
  function SortedIndices(chart: Chart, keep: seq<bool>, n: nat): seq<nat>
    requires n <= |keep|
  {
    if n == 0 then []
    else if keep[n - 1] then Insert(chart, SortedIndices(chart, keep, n - 1), n - 1)
    else SortedIndices(chart, keep, n - 1)
  }

  function Everything(n: nat): seq<bool> {
    seq(n, _ => true)
  }

  function ApplicationOrder(chart: Chart): seq<nat> {
    SortedIndices(chart, Everything(|chart.transitions|), |chart.transitions|)
  }

  lemma {:induction false} InsertMembers(chart: Chart, order: seq<nat>, i: nat)
    ensures forall j: nat :: j in Insert(chart, order, i) <==> j == i || j in order
  {
    if order == [] || Before(chart, i, order[0]) {
    } else {
      assert order == [order[0]] + order[1..];
      InsertMembers(chart, order[1..], i);
    }
  }

  lemma {:induction false} InsertKeepsOrder(chart: Chart, order: seq<nat>, i: nat)
    requires Sorted(chart, order) && InRange(chart, order) && i < |chart.transitions| && i !in order
    ensures Sorted(chart, Insert(chart, order, i)) && InRange(chart, Insert(chart, order, i))
  {
    if order == [] || Before(chart, i, order[0]) {
    } else {
      var rest := order[1..];
      InsertKeepsOrder(chart, rest, i);
      InsertMembers(chart, rest, i);
      var inserted := Insert(chart, rest, i);
      forall k | 0 <= k < |inserted| ensures Before(chart, order[0], inserted[k]) {
        assert inserted[k] in inserted;
        if inserted[k] != i {
          var l :| 0 <= l < |rest| && rest[l] == inserted[k];
          assert Before(chart, order[0], order[l + 1]);
        }
      }
    }
  }

  // The sorted list holds each kept index once, by increasing (priority, index).
  lemma {:induction false} SortedIndicesOrder(chart: Chart, keep: seq<bool>, n: nat)
    requires n <= |keep| && |keep| <= |chart.transitions|
    ensures Sorted(chart, SortedIndices(chart, keep, n)) && InRange(chart, SortedIndices(chart, keep, n))
    ensures forall j: nat :: j in SortedIndices(chart, keep, n) <==> j < n && keep[j]
  {
    if n == 0 {
    } else {
      SortedIndicesOrder(chart, keep, n - 1);
      if keep[n - 1] {
        InsertKeepsOrder(chart, SortedIndices(chart, keep, n - 1), n - 1);
        InsertMembers(chart, SortedIndices(chart, keep, n - 1), n - 1);
      }
    }
  }

  // ----- applying the enabled transitions one after the other -----

  datatype Progress = Progress(active: set<StepName>, consumed: set<StepName>, applied: seq<nat>)

  function ApplyOne(chart: Chart, fire: seq<bool>, i: nat, p: Progress): Progress
    requires |fire| == |chart.transitions| && i < |fire|
  {
    if fire[i] && Sources(chart, i) !! p.consumed then
      Progress((p.active - Sources(chart, i)) + Targets(chart, i), p.consumed + Sources(chart, i), p.applied + [i])
    else p
  }

  function ApplyAll(chart: Chart, fire: seq<bool>, order: seq<nat>, active: set<StepName>): Progress
    requires |fire| == |chart.transitions| && InRange(chart, order)
  {
    if order == [] then Progress(active, {}, [])
    else
      var n := |order| - 1;
      ApplyOne(chart, fire, order[n], ApplyAll(chart, fire, order[..n], active))
  }

  function FireFlags(chart: Chart, truth: seq<bool>, active: set<StepName>): seq<bool>
    requires |truth| == |chart.transitions|
  {
    seq(|truth|, i requires 0 <= i < |truth| => Enabled(chart, truth, active, i))
  }

  lemma OrderInRange(chart: Chart)
    ensures InRange(chart, ApplicationOrder(chart))
  {
    SortedIndicesOrder(chart, Everything(|chart.transitions|), |chart.transitions|);
  }

  // One evolution of the chart as the emitted scan computes it.
  function Evolve(chart: Chart, truth: seq<bool>, active: set<StepName>): Progress
    requires |truth| == |chart.transitions|
  {
    OrderInRange(chart);
    ApplyAll(chart, FireFlags(chart, truth, active), ApplicationOrder(chart), active)
  }

  // The state fields of the emitted program: the steps whose flag is set.
  class SfcState {
    var active: set<StepName>

    // One assignment for each declared step; a repeated name keeps the last.
    constructor (chart: Chart)
      ensures active == Initial(chart.steps)
    {
      active := {};
      new;
      for k := 0 to |chart.steps|
        invariant active == Initial(chart.steps[..k])
      {
        assert chart.steps[..k + 1][..k] == chart.steps[..k];
        var step := chart.steps[k];
        active := if step.initial then active + {step.name} else active - {step.name};
      }
      assert chart.steps[..|chart.steps|] == chart.steps;
    }

    // The emitted transition code: all fire flags, then one guarded block for
    // each transition in application order.
    method Scan(chart: Chart, truth: seq<bool>)
      requires |truth| == |chart.transitions|
      modifies this
      ensures active == Evolve(chart, truth, old(active)).active
    {
      var fire: seq<bool> := [];
      for i := 0 to |chart.transitions|
        invariant fire == FireFlags(chart, truth, active)[..i]
        invariant active == old(active)
      {
        fire := fire + [Enabled(chart, truth, active, i)];
      }
      assert fire == FireFlags(chart, truth, active);
      OrderInRange(chart);
      var order := ApplicationOrder(chart);
      var consumed: set<StepName> := {};
      for k := 0 to |order|
        invariant var p := ApplyAll(chart, fire, order[..k], old(active)); p.active == active && p.consumed == consumed
      {
        assert order[..k + 1][..k] == order[..k];
        var i := order[k];
        if fire[i] && Sources(chart, i) !! consumed {
          consumed := consumed + Sources(chart, i);
          active := active - Sources(chart, i);
          active := active + Targets(chart, i);
        }
      }
      assert order[..|order|] == order;
    }
  }

  function Initial(steps: seq<Step>): set<StepName> {
    if steps == [] then {}
    else
      var n := |steps| - 1;
      if steps[n].initial then Initial(steps[..n]) + {steps[n].name} else Initial(steps[..n]) - {steps[n].name}
  }

  // ----- conflict resolution -----

  predicate Conflict(chart: Chart, i: nat, j: nat) {
    i < |chart.transitions| && j < |chart.transitions| && !(Sources(chart, i) !! Sources(chart, j))
  }

  ghost predicate SourcesDisjoint(chart: Chart, applied: seq<nat>) {
    InRange(chart, applied) &&
    forall k, l :: 0 <= k < l < |applied| ==> Sources(chart, applied[k]) !! Sources(chart, applied[l])
  }

  // i gave way to an applied transition that comes first
  ghost predicate Outranked(chart: Chart, applied: seq<nat>, i: nat) {
    exists j: nat :: j in applied && Before(chart, j, i) && Conflict(chart, j, i)
  }

  ghost predicate Resolved(chart: Chart, fire: seq<bool>, order: seq<nat>, p: Progress, active: set<StepName>)
    requires |fire| == |chart.transitions| && InRange(chart, order)
  {
    && SourcesDisjoint(chart, p.applied) && Sorted(chart, p.applied)
    && (forall i: nat :: i in p.applied ==> i in order && fire[i])
    && p.consumed == AllSources(chart, p.applied)
    && (forall i: nat :: i in order && fire[i] ==> i in p.applied || Outranked(chart, p.applied, i))
    && active - p.consumed <= p.active
  }

  ghost function AllSources(chart: Chart, applied: seq<nat>): set<StepName>
    requires InRange(chart, applied)
  {
    set k, s | 0 <= k < |applied| && s in Sources(chart, applied[k]) :: s
  }

  ghost function AllTargets(chart: Chart, applied: seq<nat>): set<StepName>
    requires InRange(chart, applied)
  {
    set k, s | 0 <= k < |applied| && s in Targets(chart, applied[k]) :: s
  }

  lemma AllSourcesAppend(chart: Chart, applied: seq<nat>, i: nat)
    requires InRange(chart, applied) && i < |chart.transitions|
    ensures AllSources(chart, applied + [i]) == AllSources(chart, applied) + Sources(chart, i)
  {
    var q := applied + [i];
    forall k, s | 0 <= k < |applied| && s in Sources(chart, applied[k]) ensures s in AllSources(chart, q) {
      assert q[k] == applied[k];
    }
    assert q[|applied|] == i;
  }

  lemma AppliedResolves(chart: Chart, fire: seq<bool>, order: seq<nat>, i: nat, p: Progress, active: set<StepName>)
    requires |fire| == |chart.transitions| && InRange(chart, order) && i < |fire|
    requires forall j: nat :: j in order ==> Before(chart, j, i)
    requires Resolved(chart, fire, order, p, active) && fire[i] && Sources(chart, i) !! p.consumed
    ensures Resolved(chart, fire, order + [i], ApplyOne(chart, fire, i, p), active)
  {
    hide Before, Conflict;
    var q := ApplyOne(chart, fire, i, p);
    AllSourcesAppend(chart, p.applied, i);
    forall j: nat | j in order && Outranked(chart, p.applied, j) ensures Outranked(chart, q.applied, j) {
      var k: nat :| k in p.applied && Before(chart, k, j) && Conflict(chart, k, j);
      assert k in q.applied;
    }
    forall k | 0 <= k < |p.applied|
      ensures Sources(chart, p.applied[k]) !! Sources(chart, i) && Before(chart, p.applied[k], i)
    {
      assert p.applied[k] in p.applied;
      assert Sources(chart, p.applied[k]) <= p.consumed;
    }
    assert i in q.applied;
  }

  lemma PassedOverResolves(chart: Chart, fire: seq<bool>, order: seq<nat>, i: nat, p: Progress, active: set<StepName>)
    requires |fire| == |chart.transitions| && InRange(chart, order) && i < |fire|
    requires forall j: nat :: j in order ==> Before(chart, j, i)
    requires Resolved(chart, fire, order, p, active) && !(fire[i] && Sources(chart, i) !! p.consumed)
    ensures Resolved(chart, fire, order + [i], ApplyOne(chart, fire, i, p), active)
  {
    hide Before;
    if fire[i] {
      var s :| s in Sources(chart, i) && s in p.consumed;
      var k :| 0 <= k < |p.applied| && s in Sources(chart, p.applied[k]);
      assert p.applied[k] in p.applied && Conflict(chart, p.applied[k], i);
      assert Outranked(chart, p.applied, i);
    }
  }

  lemma {:induction false} ApplyAllResolves(chart: Chart, fire: seq<bool>, order: seq<nat>, active: set<StepName>)
    requires |fire| == |chart.transitions| && InRange(chart, order) && Sorted(chart, order)
    ensures Resolved(chart, fire, order, ApplyAll(chart, fire, order, active), active)
  {
    if order == [] {
    } else {
      var n := |order| - 1;
      ApplyAllResolves(chart, fire, order[..n], active);
      assert order == order[..n] + [order[n]];
      var p := ApplyAll(chart, fire, order[..n], active);
      hide Resolved;
      if fire[order[n]] && Sources(chart, order[n]) !! p.consumed {
        AppliedResolves(chart, fire, order[..n], order[n], p, active);
      } else {
        PassedOverResolves(chart, fire, order[..n], order[n], p, active);
      }
    }
  }

  // Fire flags come from the snapshot alone; the applied transitions have
  // disjoint sources; and an enabled transition is passed over exactly when an
  // applied one that precedes it in (priority, index) shares a source with it.
  lemma ConflictResolution(chart: Chart, truth: seq<bool>, active: set<StepName>)
    requires |truth| == |chart.transitions|
    ensures var applied := Evolve(chart, truth, active).applied;
      && Sorted(chart, applied)
      && (forall i: nat :: i in applied ==> Enabled(chart, truth, active, i))
      && (forall i: nat, j: nat :: i in applied && j in applied && i != j ==> !Conflict(chart, i, j))
      && (forall i: nat :: Enabled(chart, truth, active, i) ==>
           (i !in applied <==> Outranked(chart, applied, i)))
  {
    var fire := FireFlags(chart, truth, active);
    var order := ApplicationOrder(chart);
    var n := |chart.transitions|;
    SortedIndicesOrder(chart, Everything(n), n);
    ApplyAllResolves(chart, fire, order, active);
    var applied := Evolve(chart, truth, active).applied;
    forall i: nat, j: nat | i in applied && j in applied && i != j ensures !Conflict(chart, i, j) {
      var k :| 0 <= k < |applied| && applied[k] == i;
      var l :| 0 <= l < |applied| && applied[l] == j;
      if k < l { assert Sources(chart, applied[k]) !! Sources(chart, applied[l]); }
      else { assert Sources(chart, applied[l]) !! Sources(chart, applied[k]); }
    }
    forall i: nat | Enabled(chart, truth, active, i) ensures i in order && fire[i] {
    }
  }

  // ----- one at a time or all at once -----

  // A step entered before it is left is entered again at that point or later.
  ghost predicate EntersSurvive(chart: Chart, applied: seq<nat>)
    requires InRange(chart, applied)
  {
    forall i, j, s :: 0 <= i < j < |applied| && s in Targets(chart, applied[i]) && s in Sources(chart, applied[j]) ==>
      exists k :: j <= k < |applied| && s in Targets(chart, applied[k])
  }

  // s is entered by applied[k] and not left after that
  ghost predicate LastEntered(chart: Chart, applied: seq<nat>, s: StepName, k: nat)
    requires InRange(chart, applied)
  {
    k < |applied| && s in Targets(chart, applied[k]) &&
    forall j :: k < j < |applied| ==> s !in Sources(chart, applied[j])
  }

  lemma {:induction false} ActiveAfter(chart: Chart, fire: seq<bool>, order: seq<nat>, active: set<StepName>)
    requires |fire| == |chart.transitions| && InRange(chart, order)
    ensures var p := ApplyAll(chart, fire, order, active);
      InRange(chart, p.applied) &&
      forall s :: s in p.active <==>
        (s in active && s !in AllSources(chart, p.applied)) || exists k: nat :: LastEntered(chart, p.applied, s, k)
  {
    if order == [] {
    } else {
      var n := |order| - 1;
      var i := order[n];
      var p := ApplyAll(chart, fire, order[..n], active);
      ActiveAfter(chart, fire, order[..n], active);
      if fire[i] && Sources(chart, i) !! p.consumed {
        var q := p.applied + [i];
        forall s ensures s in AllSources(chart, q) <==> s in AllSources(chart, p.applied) || s in Sources(chart, i) {
          if s in AllSources(chart, p.applied) {
            var k :| 0 <= k < |p.applied| && s in Sources(chart, p.applied[k]);
            assert q[k] == p.applied[k];
          }
          if s in Sources(chart, i) { assert q[|p.applied|] == i; }
        }
        forall s
          ensures (exists k: nat :: LastEntered(chart, q, s, k)) <==>
            s in Targets(chart, i) || (s !in Sources(chart, i) && exists k: nat :: LastEntered(chart, p.applied, s, k))
        {
          if s in Targets(chart, i) { assert LastEntered(chart, q, s, |p.applied|); }
          if k: nat :| LastEntered(chart, p.applied, s, k) {
            if s !in Sources(chart, i) { assert LastEntered(chart, q, s, k); }
          }
          if k: nat :| LastEntered(chart, q, s, k) {
            if k < |p.applied| {
              assert s !in Sources(chart, q[|p.applied|]);
              forall j | k < j < |p.applied| ensures s !in Sources(chart, p.applied[j]) { assert q[j] == p.applied[j]; }
              assert LastEntered(chart, p.applied, s, k);
            }
          }
        }
      }
    }
  }

  ghost predicate AppliedFrom(chart: Chart, fire: seq<bool>, p: Progress)
    requires |fire| == |chart.transitions|
  {
    && SourcesDisjoint(chart, p.applied) && p.consumed == AllSources(chart, p.applied)
    && forall k :: 0 <= k < |p.applied| ==> fire[p.applied[k]]
  }

  // In whatever order, the applied transitions have fired and are in no conflict.
  lemma {:induction false} AppliedApart(chart: Chart, fire: seq<bool>, order: seq<nat>, active: set<StepName>)
    requires |fire| == |chart.transitions| && InRange(chart, order)
    ensures AppliedFrom(chart, fire, ApplyAll(chart, fire, order, active))
  {
    if order == [] {
    } else {
      var n := |order| - 1;
      var p := ApplyAll(chart, fire, order[..n], active);
      AppliedApart(chart, fire, order[..n], active);
      AllSourcesAppend(chart, p.applied, order[n]);
      if fire[order[n]] && Sources(chart, order[n]) !! p.consumed {
        forall k | 0 <= k < |p.applied| ensures Sources(chart, p.applied[k]) !! Sources(chart, order[n]) {
          assert Sources(chart, p.applied[k]) <= p.consumed;
        }
      }
    }
  }

  // `now` is what one-at-a-time application of the transitions leaves.
  ghost predicate Leaves(chart: Chart, applied: seq<nat>, active: set<StepName>, now: set<StepName>)
    requires InRange(chart, applied)
  {
    forall s :: s in now <==>
      (s in active && s !in AllSources(chart, applied)) || exists k: nat :: LastEntered(chart, applied, s, k)
  }

  lemma EnteredSurvives(chart: Chart, applied: seq<nat>, active: set<StepName>, now: set<StepName>)
    requires InRange(chart, applied) && Leaves(chart, applied, active, now)
    requires now == (active - AllSources(chart, applied)) + AllTargets(chart, applied)
    ensures EntersSurvive(chart, applied)
  {
    forall i, j, s | 0 <= i < j < |applied| && s in Targets(chart, applied[i]) && s in Sources(chart, applied[j])
      ensures exists k :: j <= k < |applied| && s in Targets(chart, applied[k])
    {
      assert s in now && s in AllSources(chart, applied);
      var k: nat :| LastEntered(chart, applied, s, k);
      assert j <= k;
    }
  }

  lemma LeftOnce(chart: Chart, applied: seq<nat>, s: StepName, j: nat, k: nat)
    requires SourcesDisjoint(chart, applied)
    requires j <= k < |applied| && s in Sources(chart, applied[j]) && s in Targets(chart, applied[k])
    ensures LastEntered(chart, applied, s, k)
  {
    forall l | k < l < |applied| ensures s !in Sources(chart, applied[l]) {
      assert Sources(chart, applied[j]) !! Sources(chart, applied[l]);
    }
  }

  lemma SurvivorsAreIn(chart: Chart, applied: seq<nat>, active: set<StepName>, now: set<StepName>)
    requires SourcesDisjoint(chart, applied) && Leaves(chart, applied, active, now) && EntersSurvive(chart, applied)
    ensures now == (active - AllSources(chart, applied)) + AllTargets(chart, applied)
  {
    forall s | s in AllTargets(chart, applied) ensures exists k: nat :: LastEntered(chart, applied, s, k) {
      var i :| 0 <= i < |applied| && s in Targets(chart, applied[i]);
      if !LastEntered(chart, applied, s, i) {
        var j :| i < j < |applied| && s in Sources(chart, applied[j]);
        var k :| j <= k < |applied| && s in Targets(chart, applied[k]);
        LeftOnce(chart, applied, s, j, k);
      }
    }
    forall s | s in now ensures s in (active - AllSources(chart, applied)) + AllTargets(chart, applied) {
      if k: nat :| LastEntered(chart, applied, s, k) { assert s in Targets(chart, applied[k]); }
    }
  }

  // Applying one transition at a time, in any order, gives the simultaneous
  // update exactly when no step that is entered and later left in the same scan
  // stays left.
  lemma AnyOrderIsSimultaneous(chart: Chart, fire: seq<bool>, order: seq<nat>, active: set<StepName>)
    requires |fire| == |chart.transitions| && InRange(chart, order)
    ensures var p := ApplyAll(chart, fire, order, active);
      InRange(chart, p.applied) &&
      (p.active == (active - AllSources(chart, p.applied)) + AllTargets(chart, p.applied) <==>
       EntersSurvive(chart, p.applied))
  {
    ActiveAfter(chart, fire, order, active);
    AppliedApart(chart, fire, order, active);
    var p := ApplyAll(chart, fire, order, active);
    hide ApplyAll, EntersSurvive, LastEntered;
    if p.active == (active - AllSources(chart, p.applied)) + AllTargets(chart, p.applied) {
      EnteredSurvives(chart, p.applied, active, p.active);
    }
    if EntersSurvive(chart, p.applied) { SurvivorsAreIn(chart, p.applied, active, p.active); }
  }

  // No transition that fires enters a source of another that fires.
  ghost predicate Independent(chart: Chart, fire: seq<bool>)
    requires |fire| == |chart.transitions|
  {
    forall i: nat, j: nat :: i < |fire| && j < |fire| && i != j && fire[i] && fire[j]
        ==> Targets(chart, i) !! Sources(chart, j)
  }

  predicate NoRepeats(order: seq<nat>) {
    forall k, l :: 0 <= k < l < |order| ==> order[k] != order[l]
  }

  lemma {:induction false} AppliedOnce(chart: Chart, fire: seq<bool>, order: seq<nat>, active: set<StepName>)
    requires |fire| == |chart.transitions| && InRange(chart, order) && NoRepeats(order)
    ensures var applied := ApplyAll(chart, fire, order, active).applied;
      NoRepeats(applied) && forall i <- applied :: i in order
  {
    if order == [] {
    } else {
      var n := |order| - 1;
      AppliedOnce(chart, fire, order[..n], active);
      var applied := ApplyAll(chart, fire, order[..n], active).applied;
      forall k | 0 <= k < |applied| ensures applied[k] != order[n] {
        assert applied[k] in order[..n];
      }
    }
  }

  // Where the fired transitions are independent, the order of application makes
  // no difference to what applying the same ones at once would give.
  lemma IndependentIsSimultaneous(chart: Chart, fire: seq<bool>, order: seq<nat>, active: set<StepName>)
    requires |fire| == |chart.transitions| && InRange(chart, order) && NoRepeats(order) && Independent(chart, fire)
    ensures var p := ApplyAll(chart, fire, order, active);
      InRange(chart, p.applied) &&
      p.active == (active - AllSources(chart, p.applied)) + AllTargets(chart, p.applied)
  {
    AnyOrderIsSimultaneous(chart, fire, order, active);
    AppliedApart(chart, fire, order, active);
    AppliedOnce(chart, fire, order, active);
    var applied := ApplyAll(chart, fire, order, active).applied;
    hide ApplyAll;
    forall i, j | 0 <= i < j < |applied| ensures Targets(chart, applied[i]) !! Sources(chart, applied[j]) {
      assert fire[applied[i]] && fire[applied[j]] && applied[i] != applied[j];
    }
  }

  // The emitted scan, in its order of priorities.
  lemma SequentialIsSimultaneous(chart: Chart, truth: seq<bool>, active: set<StepName>)
    requires |truth| == |chart.transitions|
    ensures var p := Evolve(chart, truth, active);
      InRange(chart, p.applied) &&
      (p.active == (active - AllSources(chart, p.applied)) + AllTargets(chart, p.applied) <==>
       EntersSurvive(chart, p.applied))
    ensures Independent(chart, FireFlags(chart, truth, active))
        ==> EntersSurvive(chart, Evolve(chart, truth, active).applied)
  {
    var fire, order, n := FireFlags(chart, truth, active), ApplicationOrder(chart), |chart.transitions|;
    SortedIndicesOrder(chart, Everything(n), n);
    OrderInRange(chart);
    AnyOrderIsSimultaneous(chart, fire, order, active);
    if Independent(chart, fire) {
      SortedOnce(chart, order);
      IndependentIsSimultaneous(chart, fire, order, active);
    }
  }

  lemma SortedOnce(chart: Chart, order: seq<nat>)
    requires InRange(chart, order) && Sorted(chart, order)
    ensures NoRepeats(order)
  {
  }

  // s1 -> s2 -> s3 with both transitions enabled
  function ChainChart(): Chart {
    Chart([Step("s1", true), Step("s2", true), Step("s3", false)],
          [Transition(["s1"], ["s2"], true, None), Transition(["s2"], ["s3"], true, None)])
  }

  // Entering s2 first and leaving it second loses the step that the
  // simultaneous update, {"s2", "s3"}, keeps.
  lemma OrderCanLoseAnEntry()
    ensures Evolve(ChainChart(), [true, true], {"s1", "s2"}).active == {"s3"}
  {
    var chart, truth, active := ChainChart(), [true, true], {"s1", "s2"};
    var fire := FireFlags(chart, truth, active);
    assert Names(["s1"]) == {"s1"} && Names(["s2"]) == {"s2"} && Names(["s3"]) == {"s3"};
    assert Sources(chart, 0) == {"s1"} && Sources(chart, 1) == {"s2"};
    assert Targets(chart, 0) == {"s2"} && Targets(chart, 1) == {"s3"};
    assert fire[0] && fire[1];
    var keep := Everything(2);
    assert SortedIndices(chart, keep, 1) == [0] by { assert SortedIndices(chart, keep, 0) == []; }
    assert SortedIndices(chart, keep, 2) == [0, 1] by {
      assert Insert(chart, [], 1) == [1];
      assert [0][1..] == [];
    }
    OrderInRange(chart);
    assert [0, 1][..1] == [0] && [0][..0] == [];
    var none := ApplyAll(chart, fire, [], active);
    var one := ApplyAll(chart, fire, [0], active);
    assert one == ApplyOne(chart, fire, 0, none);
    assert ApplyAll(chart, fire, [0, 1], active) == ApplyOne(chart, fire, 1, one);
  }

  // ----- place invariants over whole runs -----

  ghost function Weight(w: StepName -> nat, steps: set<StepName>): nat {
    if steps == {} then 0
    else
      var s :| s in steps;
      w(s) + Weight(w, steps - {s})
  }

  lemma {:induction false} WeightRemove(w: StepName -> nat, steps: set<StepName>, s: StepName)
    requires s in steps
    ensures Weight(w, steps) == w(s) + Weight(w, steps - {s})
  {
    var t :| t in steps && Weight(w, steps) == w(t) + Weight(w, steps - {t});
    if t != s {
      WeightRemove(w, steps - {t}, s);
      WeightRemove(w, steps - {s}, t);
      assert steps - {t} - {s} == steps - {s} - {t};
    }
  }

  lemma {:induction false} WeightUnion(w: StepName -> nat, a: set<StepName>, b: set<StepName>)
    ensures Weight(w, a + b) <= Weight(w, a) + Weight(w, b)
    ensures a !! b ==> Weight(w, a + b) == Weight(w, a) + Weight(w, b)
  {
    if b == {} {
      assert a + b == a;
    } else {
      var s :| s in b;
      WeightRemove(w, b, s);
      WeightUnion(w, a, b - {s});
      if s in a {
        assert a + b == a + (b - {s});
      } else {
        WeightRemove(w, a + b, s);
        assert a + b - {s} == a + (b - {s});
      }
    }
  }

  // No transition puts out more weight than it takes in.
  ghost predicate Subconservative(chart: Chart, w: StepName -> nat) {
    forall i: nat :: i < |chart.transitions| ==> Weight(w, Targets(chart, i)) <= Weight(w, Sources(chart, i))
  }

  lemma {:induction false} ApplyAllWeight(chart: Chart, fire: seq<bool>, order: seq<nat>, active: set<StepName>,
      w: StepName -> nat)
    requires |fire| == |chart.transitions| && InRange(chart, order) && Sorted(chart, order)
    requires Subconservative(chart, w)
    requires forall i: nat :: i < |fire| && fire[i] ==> TransitionSteps(chart, i).Some? && Sources(chart, i) <= active
    ensures Weight(w, ApplyAll(chart, fire, order, active).active) <= Weight(w, active)
    ensures active != {} ==> ApplyAll(chart, fire, order, active).active != {}
  {
    if order == [] {
    } else {
      var n := |order| - 1;
      var i := order[n];
      var p := ApplyAll(chart, fire, order[..n], active);
      ApplyAllWeight(chart, fire, order[..n], active, w);
      ApplyAllResolves(chart, fire, order[..n], active);
      if fire[i] && Sources(chart, i) !! p.consumed {
        var src, tgt := Sources(chart, i), Targets(chart, i);
        assert src <= p.active;
        WeightUnion(w, p.active - src, src);
        assert (p.active - src) + src == p.active;
        WeightUnion(w, p.active - src, tgt);
        assert Weight(w, tgt) <= Weight(w, src);
      }
    }
  }

  ghost function Run(chart: Chart, truths: seq<seq<bool>>, active: set<StepName>): set<StepName>
    requires forall k :: 0 <= k < |truths| ==> |truths[k]| == |chart.transitions|
  {
    if truths == [] then active
    else
      var n := |truths| - 1;
      Evolve(chart, truths[n], Run(chart, truths[..n], active)).active
  }

  // Over every run and every sequence of condition values: the weight of the
  // active steps never rises, and the chart never runs out of active steps.
  lemma {:induction false} PlaceInvariant(chart: Chart, truths: seq<seq<bool>>, active: set<StepName>,
      w: StepName -> nat)
    requires forall k :: 0 <= k < |truths| ==> |truths[k]| == |chart.transitions|
    requires Subconservative(chart, w)
    ensures Weight(w, Run(chart, truths, active)) <= Weight(w, active)
    ensures active != {} ==> Run(chart, truths, active) != {}
  {
    if truths == [] {
    } else {
      var n := |truths| - 1;
      PlaceInvariant(chart, truths[..n], active, w);
      var before := Run(chart, truths[..n], active);
      var count := |chart.transitions|;
      SortedIndicesOrder(chart, Everything(count), count);
      ApplyAllWeight(chart, FireFlags(chart, truths[n], before), ApplicationOrder(chart), before, w);
    }
  }

  lemma {:induction false} UnitWeightIsSize(steps: set<StepName>)
    ensures Weight(_ => 1, steps) == |steps|
  {
    if steps == {} {
    } else {
      var s :| s in steps;
      WeightRemove(_ => 1, steps, s);
      UnitWeightIsSize(steps - {s});
    }
  }

  // A sequential chart (one step in, one step out) that starts in one step is
  // in exactly one step after every scan.
  lemma OneActiveStep(chart: Chart, truths: seq<seq<bool>>)
    requires forall k :: 0 <= k < |truths| ==> |truths[k]| == |chart.transitions|
    requires |Initial(chart.steps)| == 1
    requires forall i: nat :: i < |chart.transitions| && TransitionSteps(chart, i).Some? ==>
      |Sources(chart, i)| == |Targets(chart, i)| == 1
    ensures |Run(chart, truths, Initial(chart.steps))| == 1
  {
    var one := (_: StepName) => 1 as nat;
    forall i: nat | i < |chart.transitions| ensures Weight(one, Targets(chart, i)) <= Weight(one, Sources(chart, i)) {
      UnitWeightIsSize(Sources(chart, i));
      UnitWeightIsSize(Targets(chart, i));
    }
    PlaceInvariant(chart, truths, Initial(chart.steps), one);
    UnitWeightIsSize(Initial(chart.steps));
    UnitWeightIsSize(Run(chart, truths, Initial(chart.steps)));
  }

  // ----- agreement with the scan-cycle interpreter -----

  // The interpreter collects the enabled transitions, sorts those, and applies them.
  function InterpreterEvolve(chart: Chart, truth: seq<bool>, active: set<StepName>): Progress
    requires |truth| == |chart.transitions|
  {
    var fire := FireFlags(chart, truth, active);
    SortedIndicesOrder(chart, fire, |fire|);
    ApplyAll(chart, fire, SortedIndices(chart, fire, |fire|), active)
  }

  function Keep(fire: seq<bool>, order: seq<nat>): seq<nat>
    requires forall k :: 0 <= k < |order| ==> order[k] < |fire|
  {
    if order == [] then []
    else if fire[order[0]] then [order[0]] + Keep(fire, order[1..])
    else Keep(fire, order[1..])
  }

  lemma {:induction false} KeepMembers(fire: seq<bool>, order: seq<nat>)
    requires forall k :: 0 <= k < |order| ==> order[k] < |fire|
    ensures forall j: nat :: j in Keep(fire, order) <==> j in order && fire[j]
  {
    if order == [] {
    } else {
      assert order == [order[0]] + order[1..];
      KeepMembers(fire, order[1..]);
    }
  }

  lemma {:induction false} KeepAppend(fire: seq<bool>, order: seq<nat>, i: nat)
    requires forall k :: 0 <= k < |order| ==> order[k] < |fire|
    requires i < |fire|
    ensures Keep(fire, order + [i]) == Keep(fire, order) + if fire[i] then [i] else []
  {
    if order == [] {
      assert order + [i] == [i];
    } else {
      assert (order + [i])[1..] == order[1..] + [i];
      KeepAppend(fire, order[1..], i);
    }
  }

  lemma {:induction false} KeepInsert(chart: Chart, fire: seq<bool>, order: seq<nat>, i: nat)
    requires |fire| == |chart.transitions| && InRange(chart, order) && Sorted(chart, order) && i < |fire|
    requires i !in order
    ensures InRange(chart, Insert(chart, order, i))
    ensures Keep(fire, Insert(chart, order, i)) ==
            if fire[i] then Insert(chart, Keep(fire, order), i) else Keep(fire, order)
  {
    InsertKeepsOrder(chart, order, i);
    if order == [] {
    } else if Before(chart, i, order[0]) {
      var inserted := [i] + order;
      assert inserted[1..] == order;
      KeepMembers(fire, order);
      var kept := Keep(fire, order);
      if kept != [] {
        assert kept[0] in order;
        assert Before(chart, i, kept[0]);
      }
    } else {
      var rest := order[1..];
      KeepInsert(chart, fire, rest, i);
      assert ([order[0]] + Insert(chart, rest, i))[1..] == Insert(chart, rest, i);
      if fire[order[0]] {
        assert Keep(fire, order) == [order[0]] + Keep(fire, rest);
        assert Keep(fire, order)[1..] == Keep(fire, rest);
      }
    }
  }

  lemma EverythingOrder(chart: Chart, size: nat, n: nat)
    requires size <= |chart.transitions| && 0 < n <= size
    ensures var all := SortedIndices(chart, Everything(size), n - 1);
      SortedIndices(chart, Everything(size), n) == Insert(chart, all, n - 1) && Sorted(chart, all) && n - 1 !in all
  {
    hide Insert, Sorted;
    SortedIndicesOrder(chart, Everything(size), n - 1);
  }

  lemma KeptNext(chart: Chart, fire: seq<bool>, n: nat)
    requires 0 < n <= |fire|
    ensures var kept := SortedIndices(chart, fire, n - 1);
      SortedIndices(chart, fire, n) == if fire[n - 1] then Insert(chart, kept, n - 1) else kept
  {
  }

  lemma NothingKept(chart: Chart, fire: seq<bool>, size: nat)
    ensures SortedIndices(chart, Everything(size), 0) == SortedIndices(chart, fire, 0) == Keep(fire, []) == []
  {
  }

  lemma {:induction false} KeepSorted(chart: Chart, fire: seq<bool>, n: nat)
    requires |fire| == |chart.transitions| && n <= |fire|
    ensures InRange(chart, SortedIndices(chart, Everything(|fire|), n))
    ensures Keep(fire, SortedIndices(chart, Everything(|fire|), n)) == SortedIndices(chart, fire, n)
  {
    hide Insert, Before, Keep, Sorted, SortedIndices;
    var order := SortedIndices(chart, Everything(|fire|), n);
    SortedIndicesOrder(chart, Everything(|fire|), n);
    if n == 0 {
      NothingKept(chart, fire, |fire|);
    } else {
      var all := SortedIndices(chart, Everything(|fire|), n - 1);
      KeepSorted(chart, fire, n - 1);
      EverythingOrder(chart, |fire|, n);
      KeepInsert(chart, fire, all, n - 1);
      KeptNext(chart, fire, n);
      assert Keep(fire, order) == Keep(fire, Insert(chart, all, n - 1));
    }
  }

  lemma {:induction false} ApplyKept(chart: Chart, fire: seq<bool>, order: seq<nat>, active: set<StepName>)
    requires |fire| == |chart.transitions| && InRange(chart, order)
    ensures InRange(chart, Keep(fire, order))
    ensures ApplyAll(chart, fire, Keep(fire, order), active) == ApplyAll(chart, fire, order, active)
  {
    KeepMembers(fire, order);
    if order == [] {
    } else {
      var n := |order| - 1;
      var i := order[n];
      var kept := Keep(fire, order[..n]);
      ApplyKept(chart, fire, order[..n], active);
      KeepAppend(fire, order[..n], i);
      assert order[..n] + [i] == order;
      if fire[i] {
        ApplyAllAppend(chart, fire, kept, i, active);
      } else {
        assert Keep(fire, order) == kept;
      }
    }
  }

  lemma ApplyAllAppend(chart: Chart, fire: seq<bool>, order: seq<nat>, i: nat, active: set<StepName>)
    requires |fire| == |chart.transitions| && InRange(chart, order) && i < |fire|
    ensures ApplyAll(chart, fire, order + [i], active) == ApplyOne(chart, fire, i, ApplyAll(chart, fire, order, active))
  {
    assert (order + [i])[..|order|] == order;
  }

  // The generated C and the interpreter take the same step from every marking.
  lemma EvolutionParity(chart: Chart, truth: seq<bool>, active: set<StepName>)
    requires |truth| == |chart.transitions|
    ensures Evolve(chart, truth, active) == InterpreterEvolve(chart, truth, active)
  {
    var fire := FireFlags(chart, truth, active);
    KeepSorted(chart, fire, |fire|);
    OrderInRange(chart);
    ApplyKept(chart, fire, ApplicationOrder(chart), active);
  }
}
