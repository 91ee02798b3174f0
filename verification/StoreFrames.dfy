/**
 * The frame of a unit inside the C store: its variables in fields of their own,
 * and the store's other fields.
 */
module StoreFrames {
  import opened Wrappers
  import opened Values
  import opened StructuredText
  import opened CCode
  import opened Lowering
  import opened ExpressionMeaning

  // No two variables of the unit share a field.
  ghost predicate Distinct(u: Unit, names: Naming) {
    forall p, q | Declared(u, p) && Declared(u, q) && names(p) == names(q) :: p == q
  }

  ghost function FieldsOf(u: Unit, names: Naming): iset<string> {
    iset p: Path | Declared(u, p) :: names(p)
  }

  // Fields of other variables keep their values.
  ghost predicate Kept(s: Store, t: Store, fields: iset<string>) {
    s.Keys == t.Keys && forall n | n in s && n !in fields :: s[n] == t[n]
  }

  // ----- C blocks -----

  // What is in scope after a block, for what follows it.
  function ScopeAfter(cs: seq<CStmt>, s: Store, locals: Locals, fuel: nat): Locals {
    if cs == [] then locals
    else
      var r := ExecC(cs[0], s, locals, fuel);
      if r.CDone? && r.outcome.CNormal? then ScopeAfter(cs[1..], r.store, Scope(cs[0], s, locals), fuel) else locals
  }

  lemma {:induction false} Concatenated(a: seq<CStmt>, b: seq<CStmt>, s: Store, locals: Locals, fuel: nat)
    ensures ExecCBlock(a + b, s, locals, fuel) ==
            var r := ExecCBlock(a, s, locals, fuel);
            if r.CDone? && r.outcome.CNormal? then ExecCBlock(b, r.store, ScopeAfter(a, s, locals, fuel), fuel) else r
    decreases |a|
  {
    if a == [] {
      assert a + b == b;
    } else {
      assert (a + b)[0] == a[0] && (a + b)[1..] == a[1..] + b;
      var r := ExecC(a[0], s, locals, fuel);
      if r.CDone? { Concatenated(a[1..], b, r.store, Scope(a[0], s, locals), fuel); }
    }
  }

  lemma Alone(c: CStmt, s: Store, locals: Locals, fuel: nat)
    ensures ExecCBlock([c], s, locals, fuel) == ExecC(c, s, locals, fuel)
  {
  }

  // ----- assignment -----

  lemma AssignedField(p: Path, v: Value, u: Unit, f: Frame, s: Store, names: Naming)
    requires Represents(s, u, f, names) && Distinct(u, names)
    requires TypeAt(u, p) == Some(TypeOfValue(v))
    ensures p in f && names(p) in s && Stored(s[names(p)], Num(v)) == v
    ensures Represents(s[names(p) := v], u, f[p := v], names)
    ensures Kept(s, s[names(p) := v], FieldsOf(u, names))
  {
    assert p in f && Declared(u, p);
    assert names(p) in FieldsOf(u, names);
    var t, g := s[names(p) := v], f[p := v];
    forall q | q in g ensures names(q) in t && t[names(q)] == g[q] {
      assert q in f && Declared(u, q);
    }
    forall q ensures q in g <==> Declared(u, q) {
      assert q in f <==> Declared(u, q);
    }
  }

  lemma KeptOn(a: Store, b: Store, c: Store, fields: iset<string>)
    requires Kept(a, b, fields) && Kept(b, c, fields)
    ensures Kept(a, c, fields)
  {
  }

  lemma AssignmentMeans(p: Path, e: Expr, u: Unit, f: Frame, s: Store, names: Naming, locals: Locals, fuel: nat)
    requires Represents(s, u, f, names) && Distinct(u, names)
    requires Declared(u, p) && HasMeaning(e, u, TypeAt(u, p).value) && Eval(e, f).Some?
    ensures var v := Eval(e, f).value;
      && ExecC(CAssign(names(p), LowerExpr(e, u, names)), s, locals, fuel) == CDone(s[names(p) := v], CNormal)
      && Represents(s[names(p) := v], u, f[p := v], names)
      && Kept(s, s[names(p) := v], FieldsOf(u, names))
  {
    hide Represents, Distinct, Kept, FieldsOf, LowerExpr, EvalC, Supported, TypeOf, Eval;
    ExpressionMeans(e, u, f, s, names, locals);
    AssignedField(p, Eval(e, f).value, u, f, s, names);
  }

  // ----- the frame of an instance -----

  lemma PathBelow(u: Unit, instance: Name, q: Path)
    requires HasInstance(u, instance) && q != []
    ensures TypeAt(u, [instance] + q) == TypeAt(BlockOf(u, instance), q)
  {
    assert ([instance] + q)[1..] == q;
  }

  lemma UnderIsDistinct(u: Unit, names: Naming, instance: Name)
    requires HasInstance(u, instance) && Distinct(u, names)
    ensures Distinct(BlockOf(u, instance), Under(names, instance))
  {
    var block := BlockOf(u, instance);
    forall p, q | Declared(block, p) && Declared(block, q) && Under(names, instance)(p) == Under(names, instance)(q)
      ensures p == q
    {
      PathBelow(u, instance, p);
      PathBelow(u, instance, q);
      assert Declared(u, [instance] + p) && Declared(u, [instance] + q);
      assert ([instance] + p)[1..] == p && ([instance] + q)[1..] == q;
    }
  }

  // The instance's frame is what the store holds under its names.
  lemma InstanceIsRepresented(u: Unit, f: Frame, s: Store, names: Naming, instance: Name)
    requires HasInstance(u, instance) && Represents(s, u, f, names)
    ensures Represents(s, BlockOf(u, instance), FrameOf(f, instance), Under(names, instance))
  {
    var block, g := BlockOf(u, instance), FrameOf(f, instance);
    forall q ensures q in g <==> Declared(block, q) {
      FramePaths(f, instance, q);
      if q != [] { PathBelow(u, instance, q); }
      if q == [] && [instance] + q in f { assert [instance] + q == [instance]; }
    }
    forall q | q in g
      ensures TypeAt(block, q) == Some(TypeOfValue(g[q])) && Under(names, instance)(q) in s
          && s[Under(names, instance)(q)] == g[q]
    {
      FramePaths(f, instance, q);
      PathBelow(u, instance, q);
    }
  }

  lemma FramePaths(f: Frame, instance: Name, q: Path)
    ensures q in FrameOf(f, instance) <==> q != [] && [instance] + q in f
    ensures q in FrameOf(f, instance) ==> FrameOf(f, instance)[q] == f[[instance] + q]
  {
    var p := [instance] + q;
    assert p[1..] == q;
    if q in FrameOf(f, instance) {
      var p' :| p' in f && |p'| > 1 && p'[0] == instance && p'[1..] == q;
      assert p' == p;
    }
  }

  // A field of the instance belongs to no variable outside it.
  lemma OutsideInstance(u: Unit, names: Naming, instance: Name, p: Path)
    requires HasInstance(u, instance) && Distinct(u, names) && Declared(u, p)
    requires names(p) in FieldsOf(BlockOf(u, instance), Under(names, instance))
    ensures |p| > 1 && p[0] == instance && Declared(BlockOf(u, instance), p[1..])
  {
    var q :| Declared(BlockOf(u, instance), q) && Under(names, instance)(q) == names(p);
    PathBelow(u, instance, q);
    assert Declared(u, [instance] + q);
    assert p == [instance] + q && p[1..] == q;
  }

  lemma InstanceFields(u: Unit, names: Naming, instance: Name, n: string)
    requires HasInstance(u, instance) && n in FieldsOf(BlockOf(u, instance), Under(names, instance))
    ensures n in FieldsOf(u, names)
  {
    var q :| Declared(BlockOf(u, instance), q) && Under(names, instance)(q) == n;
    PathBelow(u, instance, q);
    assert Declared(u, [instance] + q);
  }

  // After the inlined body the store holds the unit's frame with the
  // instance's new frame put back.
  lemma MergedIsRepresented(u: Unit, f: Frame, s: Store, names: Naming, instance: Name, g: Frame, t: Store)
    requires HasInstance(u, instance) && Distinct(u, names) && Represents(s, u, f, names)
    requires Represents(t, BlockOf(u, instance), g, Under(names, instance))
    requires Kept(s, t, FieldsOf(BlockOf(u, instance), Under(names, instance)))
    ensures Represents(t, u, Merge(f, instance, g), names)
    ensures Kept(s, t, FieldsOf(u, names))
  {
    hide Distinct, FieldsOf, Under;
    var block, inner, h := BlockOf(u, instance), Under(names, instance), Merge(f, instance, g);
    forall n | n in s && n !in FieldsOf(u, names) ensures s[n] == t[n] {
      if n in FieldsOf(block, inner) { InstanceFields(u, names, instance, n); }
    }
    forall p | p in h
      ensures Declared(u, p) && TypeAt(u, p) == Some(TypeOfValue(h[p])) && names(p) in t && t[names(p)] == h[p]
    {
      assert p in f;
      MergedField(u, f, s, names, instance, g, t, p);
    }
  }

  lemma MergedField(u: Unit, f: Frame, s: Store, names: Naming, instance: Name, g: Frame, t: Store, p: Path)
    requires HasInstance(u, instance) && Distinct(u, names) && Represents(s, u, f, names) && p in f
    requires Represents(t, BlockOf(u, instance), g, Under(names, instance))
    requires Kept(s, t, FieldsOf(BlockOf(u, instance), Under(names, instance)))
    ensures var v := Merge(f, instance, g)[p];
      TypeAt(u, p) == Some(TypeOfValue(v)) && names(p) in t && t[names(p)] == v
  {
    hide Distinct, FieldsOf;
    if |p| > 1 && p[0] == instance && p[1..] in g {
      assert p == [instance] + p[1..];
      PathBelow(u, instance, p[1..]);
      assert Under(names, instance)(p[1..]) == names(p);
    } else if names(p) in FieldsOf(BlockOf(u, instance), Under(names, instance)) {
      OutsideInstance(u, names, instance, p);
      assert false;
    }
  }
}
