/**
 * Resolution of named data types through a table of declarations, with the
 * `seen` set that stops it on cyclic aliases.
 */
module TypeAliases {
  import opened Wrappers

  datatype Subrange = Subrange(low: int, high: int)

  // Every type that is neither a name nor an array counts as a scalar here.
  datatype Spec = Scalar(kind: string) | Named(name: string) | Array(ranges: seq<Subrange>, element: Spec)

  datatype Declaration = Declaration(name: string, spec: Spec)
  type Table = seq<Declaration>

  // The first declaration of the name.
  function Find(table: Table, name: string): Option<Spec> {
    if table == [] then None
    else if table[0].name == name then Some(table[0].spec)
    else Find(table[1..], name)
  }

  function Declared(table: Table): set<string> {
    set k | 0 <= k < |table| :: table[k].name
  }

  lemma {:induction false} FoundIsDeclared(table: Table, name: string)
    ensures Find(table, name).Some? <==> name in Declared(table)
  {
    if table == [] {
    } else {
      FoundIsDeclared(table[1..], name);
      if name in Declared(table[1..]) {
        var k :| 0 <= k < |table[1..]| && table[1..][k].name == name;
        assert table[k + 1].name == name;
      }
      if name in Declared(table) && table[0].name != name {
        var k :| 0 <= k < |table| && table[k].name == name;
        assert table[1..][k - 1].name == name;
      }
    }
  }

  // Terminates on any table: each step takes a declared name out of play.
  function ResolveFrom(table: Table, spec: Spec, seen: set<string>): Spec
    decreases Declared(table) - seen
  {
    if !spec.Named? || spec.name in seen then spec
    else
      var found := Find(table, spec.name);
      if found.None? then spec
      else
        FoundIsDeclared(table, spec.name);
        ResolveFrom(table, found.value, seen + {spec.name})
  }

  function Resolve(table: Table, spec: Spec): Spec {
    ResolveFrom(table, spec, {})
  }

  // ----- alias chains -----

  function Next(table: Table, spec: Spec): Option<Spec> {
    if spec.Named? then Find(table, spec.name) else None
  }

  // The k-th type of the alias chain that starts in `spec`, if it is that long.
  function Chain(table: Table, spec: Spec, k: nat): Option<Spec>
    decreases k
  {
    if k == 0 then Some(spec)
    else
      var next := Next(table, spec);
      if next.None? then None else Chain(table, next.value, k - 1)
  }

  lemma {:induction false} ChainJoins(table: Table, spec: Spec, i: nat, j: nat)
    ensures Chain(table, spec, i + j) ==
            var mid := Chain(table, spec, i); if mid.None? then None else Chain(table, mid.value, j)
    decreases i
  {
    if i > 0 && Next(table, spec).Some? {
      ChainJoins(table, Next(table, spec).value, i - 1, j);
    }
  }

  // The chain ends in this type: it is not a name, or an undeclared one.
  predicate Terminal(table: Table, spec: Spec) {
    Next(table, spec).None?
  }

  ghost predicate OnCycle(table: Table, spec: Spec) {
    exists k: nat :: k > 0 && Chain(table, spec, k) == Some(spec)
  }

  ghost predicate LeadsTo(table: Table, spec: Spec, target: Spec) {
    exists k: nat :: Chain(table, spec, k) == Some(target)
  }

  // from the name n, one or more steps lead to spec
  ghost predicate Passed(table: Table, n: string, spec: Spec) {
    exists j: nat :: j > 0 && Chain(table, Named(n), j) == Some(spec)
  }

  lemma {:induction false} ResolveFromLands(table: Table, spec: Spec, seen: set<string>)
    requires forall n :: n in seen ==> Passed(table, n, spec)
    ensures var r := ResolveFrom(table, spec, seen);
      LeadsTo(table, spec, r) && (Terminal(table, r) || OnCycle(table, r))
    decreases Declared(table) - seen
  {
    assert Chain(table, spec, 0) == Some(spec);
    if spec.Named? && spec.name !in seen && Find(table, spec.name).Some? {
      var found := Find(table, spec.name).value;
      FoundIsDeclared(table, spec.name);
      forall n | n in seen + {spec.name} ensures Passed(table, n, found) {
        if n in seen {
          var j: nat :| j > 0 && Chain(table, Named(n), j) == Some(spec);
          ChainJoins(table, Named(n), j, 1);
          assert Chain(table, spec, 1) == Some(found) by { assert Chain(table, found, 0) == Some(found); }
          assert Chain(table, Named(n), j + 1) == Some(found);
        } else {
          assert Chain(table, found, 0) == Some(found);
          assert Chain(table, Named(n), 1) == Some(found);
        }
      }
      ResolveFromLands(table, found, seen + {spec.name});
      var r := ResolveFrom(table, found, seen + {spec.name});
      var k: nat :| Chain(table, found, k) == Some(r);
      assert Chain(table, spec, k + 1) == Some(r);
    }
  }

  // No chain has both an end and a cycle.
  lemma {:induction false} EndExcludesCycle(table: Table, spec: Spec, k: nat, target: Spec, p: nat)
    requires Chain(table, spec, k) == Some(target) && Terminal(table, target)
    requires p > 0 && Chain(table, spec, p) == Some(spec)
    ensures false
    decreases k
  {
    if k >= p {
      ChainJoins(table, spec, p, k - p);
      EndExcludesCycle(table, spec, k - p, target, p);
    } else {
      ChainJoins(table, spec, k, p - k);
    }
  }

  // A chain ends in at most one type.
  lemma EndsAreEqual(table: Table, spec: Spec, a: Spec, b: Spec)
    requires LeadsTo(table, spec, a) && LeadsTo(table, spec, b) && Terminal(table, a) && Terminal(table, b)
    ensures a == b
  {
    var i: nat :| Chain(table, spec, i) == Some(a);
    var j: nat :| Chain(table, spec, j) == Some(b);
    if i < j { ChainJoins(table, spec, i, j - i); }
    if j < i { ChainJoins(table, spec, j, i - j); }
  }

  // The result is the end of the alias chain when there is one; otherwise the
  // chain runs into a cycle and the result is a name on it.
  lemma ResolveDecides(table: Table, spec: Spec)
    ensures var r := Resolve(table, spec);
      && (forall end :: LeadsTo(table, spec, end) && Terminal(table, end) ==> r == end)
      && ((forall end :: LeadsTo(table, spec, end) ==> !Terminal(table, end)) ==>
           r.Named? && LeadsTo(table, spec, r) && OnCycle(table, r))
  {
    ResolveFromLands(table, spec, {});
    var r := Resolve(table, spec);
    forall end | LeadsTo(table, spec, end) && Terminal(table, end) ensures r == end {
      if !Terminal(table, r) {
        CycleNeverEnds(table, spec, r, end);
      }
      EndsAreEqual(table, spec, r, end);
    }
  }

  lemma CycleNeverEnds(table: Table, spec: Spec, r: Spec, end: Spec)
    requires LeadsTo(table, spec, r) && OnCycle(table, r)
    requires LeadsTo(table, spec, end) && Terminal(table, end)
    ensures false
  {
    var i: nat :| Chain(table, spec, i) == Some(r);
    var j: nat :| Chain(table, spec, j) == Some(end);
    var p: nat :| p > 0 && Chain(table, r, p) == Some(r);
    if i <= j {
      ChainJoins(table, spec, i, j - i);
      EndExcludesCycle(table, r, j - i, end, p);
    } else {
      ChainJoins(table, spec, j, i - j);
    }
  }

  // A name comes back exactly when the chain ends in an undeclared name or
  // enters a cycle.
  lemma NamedResults(table: Table, spec: Spec)
    ensures Resolve(table, spec).Named? <==>
      exists t :: LeadsTo(table, spec, t) && t.Named? && (t.name !in Declared(table) || OnCycle(table, t))
  {
    ResolveFromLands(table, spec, {});
    var r := Resolve(table, spec);
    if r.Named? { FoundIsDeclared(table, r.name); }
    if t :| LeadsTo(table, spec, t) && t.Named? && (t.name !in Declared(table) || OnCycle(table, t)) {
      FoundIsDeclared(table, t.name);
      if t.name !in Declared(table) {
        ResolveDecides(table, spec);
        assert Terminal(table, t);
      } else if Terminal(table, r) {
        CycleNeverEnds(table, spec, t, r);
      } else {
        var p: nat :| p > 0 && Chain(table, r, p) == Some(r);
      }
    }
  }

  // ----- idempotence -----

  ghost predicate Period(table: Table, r: Spec, p: nat) {
    p > 0 && Chain(table, r, p) == Some(r) && forall q: nat :: 0 < q < p ==> Chain(table, r, q) != Some(r)
  }

  lemma {:induction false} PeriodExists(table: Table, r: Spec, p: nat) returns (q: nat)
    requires p > 0 && Chain(table, r, p) == Some(r)
    ensures Period(table, r, q)
  {
    if k: nat :| 0 < k < p && Chain(table, r, k) == Some(r) {
      q := PeriodExists(table, r, k);
    } else {
      q := p;
    }
  }

  ghost predicate SeenBefore(table: Table, r: Spec, i: nat, n: string) {
    exists j: nat :: j < i && Chain(table, r, j) == Some(Named(n))
  }

  // Around a cycle, resolution comes back to where it started.
  lemma {:induction false} AroundTheCycle(table: Table, r: Spec, p: nat, i: nat, spec: Spec, seen: set<string>)
    requires r.Named? && Period(table, r, p) && 0 < i <= p
    requires Chain(table, r, i) == Some(spec)
    requires r.name in seen
    requires forall n :: n in seen ==> SeenBefore(table, r, i, n)
    ensures ResolveFrom(table, spec, seen) == r
    decreases p - i
  {
    if i < p {
      ChainJoins(table, r, i, p - i);
      assert spec.Named? && Find(table, spec.name).Some?;
      if spec.name in seen {
        var j: nat :| j < i && Chain(table, r, j) == Some(Named(spec.name));
        ChainJoins(table, r, j, p - i);
        assert false;
      }
      var found := Find(table, spec.name).value;
      FoundIsDeclared(table, spec.name);
      ChainJoins(table, r, i, 1);
      assert Chain(table, spec, 1) == Chain(table, found, 0);
      forall n | n in seen + {spec.name} ensures SeenBefore(table, r, i + 1, n) {
        if n in seen {
          var j: nat :| j < i && Chain(table, r, j) == Some(Named(n));
          assert j < i + 1;
        } else {
          assert Chain(table, r, i) == Some(Named(n));
        }
      }
      AroundTheCycle(table, r, p, i + 1, found, seen + {spec.name});
    }
  }

  lemma CycleResolvesToItself(table: Table, r: Spec)
    requires OnCycle(table, r)
    ensures Resolve(table, r) == r
  {
    var k: nat :| k > 0 && Chain(table, r, k) == Some(r);
    var p := PeriodExists(table, r, k);
    assert r.Named? && Next(table, r).Some?;
    var found := Find(table, r.name).value;
    assert Chain(table, r, 1) == Chain(table, found, 0);
    forall n | n in {r.name} ensures SeenBefore(table, r, 1, n) {
      assert Chain(table, r, 0) == Some(Named(n));
    }
    AroundTheCycle(table, r, p, 1, found, {r.name});
    assert {} + {r.name} == {r.name};
    FoundIsDeclared(table, r.name);
  }

  // Resolving a resolved type changes nothing, on cyclic tables too.
  lemma ResolveIsIdempotent(table: Table, spec: Spec)
    ensures Resolve(table, Resolve(table, spec)) == Resolve(table, spec)
  {
    ResolveFromLands(table, spec, {});
    var r := Resolve(table, spec);
    if OnCycle(table, r) {
      CycleResolvesToItself(table, r);
    }
  }
}
