/**
 * The assignments around an inlined function-block body: inputs before it,
 * VAR_IN_OUT parameters and outputs after it.
 */
module InlinedCalls {
  import opened Wrappers
  import opened Values
  import opened StructuredText
  import opened CCode
  import opened Lowering
  import opened ExpressionMeaning
  import opened StoreFrames

  // The block of assignments ends normally with the store holding `g`.
  ghost predicate Ends(c: CRun, u: Unit, g: Frame, names: Naming, s: Store) {
    && c.CDone? && c.outcome.CNormal?
    && Represents(c.store, u, g, names) && Kept(s, c.store, FieldsOf(u, names))
  }

  lemma FieldPath(u: Unit, instance: Name, x: Name)
    requires HasInstance(u, instance)
    ensures TypeAt(u, [instance, x]) == TypeAt(BlockOf(u, instance), [x])
  {
    PathBelow(u, instance, [x]);
    assert [instance] + [x] == [instance, x];
  }

  // One assignment, then the rest.
  lemma AssignThen(c: CStmt, rest: seq<CStmt>, u: Unit, g: Frame, t: Store, h: Frame, names: Naming, s: Store,
      locals: Locals, fuel: nat)
    requires c.CAssign? && ExecC(c, s, locals, fuel) == CDone(t, CNormal)
    requires Kept(s, t, FieldsOf(u, names))
    requires Ends(ExecCBlock(rest, t, locals, fuel), u, h, names, t)
    ensures Ends(ExecCBlock([c] + rest, s, locals, fuel), u, h, names, s)
  {
    assert ([c] + rest)[0] == c && ([c] + rest)[1..] == rest;
    KeptOn(s, t, ExecCBlock(rest, t, locals, fuel).store, FieldsOf(u, names));
  }

  lemma Nothing(u: Unit, f: Frame, s: Store, names: Naming, locals: Locals, fuel: nat)
    requires Represents(s, u, f, names)
    ensures Ends(ExecCBlock([], s, locals, fuel), u, f, names, s)
  {
  }

  lemma {:induction false} InputsMean(args: seq<Argument>, position: nat, block: Unit, instance: Name, u: Unit,
      f: Frame, s: Store,
                                      names: Naming, locals: Locals, fuel: nat, inBlock: bool)
    requires Represents(s, u, f, names) && Distinct(u, names)
    requires HasInstance(u, instance) && block == BlockOf(u, instance)
        && SupportedArguments(args, position, block, u, inBlock)
    requires BindInputs(args, position, block, instance, f).Some?
    ensures Ends(ExecCBlock(LowerInputs(args, position, block, instance, u, names), s, locals, fuel),
                 u, BindInputs(args, position, block, instance, f).value, names, s)
    decreases |args|
  {
    hide Represents, Distinct, Kept, FieldsOf, ExecC, ExecCBlock, LowerExpr, TypeOf, Supported, TypeAt, Ends;
    if args == [] {
      Nothing(u, f, s, names, locals, fuel);
    } else {
      var t := InputTarget(InputFields(block.vars), args[0], position);
      var next := NextPosition(args[0], position);
      var rest := LowerInputs(args[1..], next, block, instance, u, names);
      if t.None? {
        InputsMean(args[1..], next, block, instance, u, f, s, names, locals, fuel, inBlock);
        assert [] + rest == rest;
      } else {
        var p := [instance, t.value.name];
        FieldPath(u, instance, t.value.name);
        AssignmentMeans(p, args[0].expr, u, f, s, names, locals, fuel);
        var v := Eval(args[0].expr, f).value;
        var s', f' := s[names(p) := v], f[p := v];
        InputsMean(args[1..], next, block, instance, u, f', s', names, locals, fuel, inBlock);
        AssignThen(CAssign(names(p), LowerExpr(args[0].expr, u, names)), rest, u, f', s',
                   BindInputs(args, position, block, instance, f).value, names, s, locals, fuel);
      }
    }
  }

  // Copying one field to another.
  lemma CopyMeans(from: Path, target: Path, u: Unit, f: Frame, s: Store, names: Naming, locals: Locals, fuel: nat)
    requires Represents(s, u, f, names) && Distinct(u, names)
    requires Declared(u, target) && TypeAt(u, from) == TypeAt(u, target)
    ensures from in f
    ensures var v := f[from];
      && ExecC(CAssign(names(target), CField(names(from))), s, locals, fuel) == CDone(s[names(target) := v], CNormal)
      && Represents(s[names(target) := v], u, f[target := v], names)
      && Kept(s, s[names(target) := v], FieldsOf(u, names))
  {
    assert from in f by { assert Declared(u, from); }
    AssignedField(target, f[from], u, f, s, names);
  }

  lemma {:induction false} InOutsMean(args: seq<Argument>, position: nat, block: Unit, instance: Name, u: Unit,
      f: Frame, s: Store,
                                      names: Naming, locals: Locals, fuel: nat, inBlock: bool)
    requires Represents(s, u, f, names) && Distinct(u, names)
    requires HasInstance(u, instance) && block == BlockOf(u, instance)
        && SupportedArguments(args, position, block, u, inBlock)
    ensures Ends(ExecCBlock(LowerInOuts(args, position, block, instance, names), s, locals, fuel),
                 u, CopyInOuts(args, position, block, instance, f), names, s)
    decreases |args|
  {
    hide Represents, Distinct, Kept, FieldsOf, ExecC, ExecCBlock, Supported, TypeAt, Ends;
    if args == [] {
      Nothing(u, f, s, names, locals, fuel);
    } else {
      var t := InputTarget(InputFields(block.vars), args[0], position);
      var next := NextPosition(args[0], position);
      var rest := LowerInOuts(args[1..], next, block, instance, names);
      if t.Some? && t.value.kind.VarInOut? && args[0].expr.Variable? {
        var p, q := [instance, t.value.name], args[0].expr.path;
        FieldPath(u, instance, t.value.name);
        CopyMeans(p, q, u, f, s, names, locals, fuel);
        var s', f' := s[names(q) := f[p]], f[q := f[p]];
        InOutsMean(args[1..], next, block, instance, u, f', s', names, locals, fuel, inBlock);
        AssignThen(CAssign(names(q), CField(names(p))), rest, u, f', s',
            CopyInOuts(args, position, block, instance, f), names, s, locals, fuel);
      } else {
        InOutsMean(args[1..], next, block, instance, u, f, s, names, locals, fuel, inBlock);
        assert [] + rest == rest;
      }
    }
  }

  lemma {:induction false} OutputsMean(args: seq<Argument>, position: nat, block: Unit, instance: Name, u: Unit,
      f: Frame, s: Store,
                                       names: Naming, locals: Locals, fuel: nat, inBlock: bool)
    requires Represents(s, u, f, names) && Distinct(u, names)
    requires HasInstance(u, instance) && block == BlockOf(u, instance)
        && SupportedArguments(args, position, block, u, inBlock)
    ensures Ends(ExecCBlock(LowerOutputs(args, instance, names), s, locals, fuel), u, CopyOutputs(args, instance, f),
        names, s)
    decreases |args|
  {
    hide Represents, Distinct, Kept, FieldsOf, ExecC, ExecCBlock, Supported, TypeAt, Ends;
    if args == [] {
      Nothing(u, f, s, names, locals, fuel);
    } else {
      var next := NextPosition(args[0], position);
      var rest := LowerOutputs(args[1..], instance, names);
      if args[0].Output? {
        var p, q := [instance, args[0].field], args[0].target;
        FieldPath(u, instance, args[0].field);
        CopyMeans(p, q, u, f, s, names, locals, fuel);
        var s', f' := s[names(q) := f[p]], f[q := f[p]];
        OutputsMean(args[1..], next, block, instance, u, f', s', names, locals, fuel, inBlock);
        AssignThen(CAssign(names(q), CField(names(p))), rest, u, f', s', CopyOutputs(args, instance, f), names, s,
            locals, fuel);
      } else {
        OutputsMean(args[1..], next, block, instance, u, f, s, names, locals, fuel, inBlock);
        assert [] + rest == rest;
      }
    }
  }
}
