/**
 * VAR_IN_OUT: copying the actual variables in before the inlined body and out
 * after it has the effect of the body working on them directly.
 */
module ByReference {
  import opened Wrappers
  import opened Values
  import opened StructuredText
  import opened CCode
  import opened Lowering
  import opened ExpressionMeaning
  import opened StoreFrames
  import opened InlinedCalls
  import opened Untouched
  import opened StatementMeaning

  // A VAR_IN_OUT parameter and the variable passed for it.
  datatype Link = Link(param: Name, actual: Path)

  function Links(args: seq<Argument>, position: nat, block: Unit): seq<Link> {
    if args == [] then []
    else
      var t := InputTarget(InputFields(block.vars), args[0], position);
      (if t.Some? && t.value.kind.VarInOut? && args[0].expr.Variable?
       then [Link(t.value.name, args[0].expr.path)] else [])
      + Links(args[1..], NextPosition(args[0], position), block)
  }

  // Each parameter is passed once, the actuals differ from each other, and none
  // lies inside the instance itself.
  predicate Unaliased(links: seq<Link>, instance: Name) {
    && (forall j, k :: 0 <= j < k < |links| ==> links[j].param != links[k].param && links[j].actual != links[k].actual)
    && forall k :: 0 <= k < |links| ==> !(|links[k].actual| > 1 && links[k].actual[0] == instance)
  }

  function FindLink(links: seq<Link>, param: Name): (k: nat)
    ensures k <= |links|
    ensures k < |links| ==> links[k].param == param
    ensures k == |links| ==> forall j :: 0 <= j < |links| ==> links[j].param != param
  {
    if links == [] || links[0].param == param then 0 else 1 + FindLink(links[1..], param)
  }

  predicate IsLinked(links: seq<Link>, q: Path) {
    |q| == 1 && FindLink(links, q[0]) < |links|
  }

  // The body's names when its VAR_IN_OUT parameters stand for the actuals.
  function LinkedNames(links: seq<Link>, names: Naming, instance: Name): Naming {
    q => if IsLinked(links, q) then names(links[FindLink(links, q[0])].actual) else names([instance] + q)
  }

  // ----- copying in and out, on frames -----

  ghost predicate CopiedIn(f: Frame, links: seq<Link>, instance: Name) {
    forall k :: 0 <= k < |links| ==>
      [instance, links[k].param] in f && links[k].actual in f && f[[instance, links[k].param]] == f[links[k].actual]
  }

  // The parameters that the arguments assign, in order.
  function Targets(args: seq<Argument>, position: nat, block: Unit): seq<Name> {
    if args == [] then []
    else
      var t := InputTarget(InputFields(block.vars), args[0], position);
      (if t.Some? then [t.value.name] else []) + Targets(args[1..], NextPosition(args[0], position), block)
  }

  predicate NoRepeats(names: seq<Name>) {
    names == [] || (names[0] !in names[1..] && NoRepeats(names[1..]))
  }

  // Binding the inputs leaves a parameter alone that no argument names.
  lemma {:induction false} BindSkips(args: seq<Argument>, position: nat, block: Unit, instance: Name, f: Frame, x: Name)
    requires x !in Targets(args, position, block) && [instance, x] in f
    requires BindInputs(args, position, block, instance, f).Some?
    ensures var g := BindInputs(args, position, block, instance, f).value;
      [instance, x] in g && g[[instance, x]] == f[[instance, x]]
    decreases |args|
  {
    if args == [] {
    } else {
      var t := InputTarget(InputFields(block.vars), args[0], position);
      var next := NextPosition(args[0], position);
      if t.None? {
        assert Targets(args, position, block) == Targets(args[1..], next, block);
        BindSkips(args[1..], next, block, instance, f, x);
      } else {
        assert Targets(args, position, block)[0] == t.value.name;
        assert forall y :: y in Targets(args[1..], next, block) ==> y in Targets(args, position, block);
        BindSkips(args[1..], next, block, instance, f[[instance, t.value.name] := Eval(args[0].expr, f).value], x);
      }
    }
  }

  // After the inputs are bound each VAR_IN_OUT parameter is a copy of its actual.
  lemma {:induction false} BindCopiesIn(args: seq<Argument>, position: nat, block: Unit, instance: Name, f: Frame)
    requires NoRepeats(Targets(args, position, block))
    requires forall l <- Links(args, position, block) :: !(|l.actual| > 1 && l.actual[0] == instance)
    requires BindInputs(args, position, block, instance, f).Some?
    ensures CopiedIn(BindInputs(args, position, block, instance, f).value, Links(args, position, block), instance)
    decreases |args|
  {
    if args == [] {
    } else {
      var t := InputTarget(InputFields(block.vars), args[0], position);
      var next := NextPosition(args[0], position);
      var links, rest := Links(args, position, block), Links(args[1..], next, block);
      assert forall l :: l in rest ==> l in links;
      if t.None? {
        assert Targets(args, position, block) == Targets(args[1..], next, block) && links == rest;
        BindCopiesIn(args[1..], next, block, instance, f);
      } else {
        var x := t.value.name;
        assert Targets(args, position, block)[1..] == Targets(args[1..], next, block);
        var v := Eval(args[0].expr, f).value;
        var g := f[[instance, x] := v];
        BindCopiesIn(args[1..], next, block, instance, g);
        if t.value.kind.VarInOut? && args[0].expr.Variable? {
          var a := args[0].expr.path;
          assert links[0] == Link(x, a) && links[1..] == rest && links[0] in links;
          BindSkips(args[1..], next, block, instance, g, x);
          BindKeeps(args[1..], next, block, instance, g, a);
          FirstCopied(BindInputs(args[1..], next, block, instance, g).value, links, instance);
        } else {
          assert links == rest;
        }
      }
    }
  }

  lemma FirstCopied(f: Frame, links: seq<Link>, instance: Name)
    requires links != [] && CopiedIn(f, links[1..], instance)
    requires [instance, links[0].param] in f && links[0].actual in f
        && f[[instance, links[0].param]] == f[links[0].actual]
    ensures CopiedIn(f, links, instance)
  {
    forall k | 0 <= k < |links|
      ensures [instance, links[k].param] in f && links[k].actual in f
          && f[[instance, links[k].param]] == f[links[k].actual]
    {
      if k > 0 { assert links[k] == links[1..][k - 1]; }
    }
  }

  // h is f with the parameters' values in the actuals.
  ghost predicate Delivered(links: seq<Link>, instance: Name, f: Frame, h: Frame) {
    && (forall k :: 0 <= k < |links| ==>
          [instance, links[k].param] in f && links[k].actual in h
              && h[links[k].actual] == f[[instance, links[k].param]])
    && forall p | p in f && (forall k :: 0 <= k < |links| ==> links[k].actual != p) :: p in h && h[p] == f[p]
  }

  ghost predicate HaveParams(links: seq<Link>, instance: Name, f: Frame) {
    forall k :: 0 <= k < |links| ==> [instance, links[k].param] in f
  }

  lemma {:induction false} CopiedOut(args: seq<Argument>, position: nat, block: Unit, instance: Name, f: Frame)
    requires Unaliased(Links(args, position, block), instance) && HaveParams(Links(args, position, block), instance, f)
    ensures Delivered(Links(args, position, block), instance, f, CopyInOuts(args, position, block, instance, f))
    decreases |args|
  {
    hide Unaliased, Delivered, HaveParams;
    if args == [] {
      NothingDelivered(instance, f);
    } else {
      var t := InputTarget(InputFields(block.vars), args[0], position);
      var next := NextPosition(args[0], position);
      var rest := Links(args[1..], next, block);
      if t.Some? && t.value.kind.VarInOut? && args[0].expr.Variable? {
        var l := Link(t.value.name, args[0].expr.path);
        FirstDelivered(l, rest, instance, f);
        var g := f[l.actual := f[[instance, l.param]]];
        CopiedOut(args[1..], next, block, instance, g);
        AllDelivered(l, rest, instance, f, CopyInOuts(args[1..], next, block, instance, g));
      } else {
        assert Links(args, position, block) == rest;
        CopiedOut(args[1..], next, block, instance, f);
      }
    }
  }

  lemma NothingDelivered(instance: Name, f: Frame)
    ensures Delivered([], instance, f, f)
  {
  }

  lemma FirstDelivered(l: Link, rest: seq<Link>, instance: Name, f: Frame)
    requires Unaliased([l] + rest, instance) && HaveParams([l] + rest, instance, f)
    ensures [instance, l.param] in f && Unaliased(rest, instance)
    ensures HaveParams(rest, instance, f[l.actual := f[[instance, l.param]]])
  {
    assert ([l] + rest)[0] == l;
    assert forall k :: 0 <= k < |rest| ==> rest[k] == ([l] + rest)[k + 1];
  }

  lemma AllDelivered(l: Link, rest: seq<Link>, instance: Name, f: Frame, h: Frame)
    requires Unaliased([l] + rest, instance) && [instance, l.param] in f
    requires Delivered(rest, instance, f[l.actual := f[[instance, l.param]]], h)
    ensures Delivered([l] + rest, instance, f, h)
  {
    var links, g := [l] + rest, f[l.actual := f[[instance, l.param]]];
    assert links[0] == l;
    assert forall k :: 0 <= k < |rest| ==> rest[k] == links[k + 1];
    assert |l.actual| > 1 ==> l.actual[0] != instance;
    forall k | 0 <= k < |links|
      ensures [instance, links[k].param] in f && links[k].actual in h
          && h[links[k].actual] == f[[instance, links[k].param]]
    {
      if k > 0 {
        assert links[k] == rest[k - 1];
        assert [instance, links[k].param] in g && l.actual != [instance, links[k].param];
      } else {
        assert forall j :: 0 <= j < |rest| ==> rest[j].actual != l.actual;
      }
    }
    forall p | p in f && (forall k :: 0 <= k < |links| ==> links[k].actual != p) ensures p in h && h[p] == f[p] {
      assert links[0].actual != p && forall k :: 0 <= k < |rest| ==> rest[k].actual != p;
    }
  }

  // ----- the body on linked names -----

  ghost predicate Linked(u: Unit, instance: Name, links: seq<Link>) {
    HasInstance(u, instance)
    && forall k :: 0 <= k < |links| ==>
         Declared(u, links[k].actual) && TypeAt(u, links[k].actual) == TypeAt(BlockOf(u, instance), [links[k].param])
  }

  lemma LinkedIsDistinct(u: Unit, instance: Name, names: Naming, links: seq<Link>)
    requires Linked(u, instance, links) && Distinct(u, names) && Unaliased(links, instance)
    ensures Distinct(BlockOf(u, instance), LinkedNames(links, names, instance))
  {
    var block, linked := BlockOf(u, instance), LinkedNames(links, names, instance);
    forall p, q | Declared(block, p) && Declared(block, q) && linked(p) == linked(q) ensures p == q {
      var a, b := Target(u, instance, links, p), Target(u, instance, links, q);
      assert linked(p) == names(a) && linked(q) == names(b);
      assert a == b;
      TargetDecides(u, instance, links, p, q);
    }
  }

  // The variable of the unit that a variable of the block stands for.
  ghost function Target(u: Unit, instance: Name, links: seq<Link>, q: Path): (p: Path)
    requires Linked(u, instance, links) && Declared(BlockOf(u, instance), q)
    ensures Declared(u, p) && TypeAt(u, p) == TypeAt(BlockOf(u, instance), q)
  {
    PathBelow(u, instance, q);
    if IsLinked(links, q) then
      assert q == [links[FindLink(links, q[0])].param];
      links[FindLink(links, q[0])].actual
    else [instance] + q
  }

  lemma TargetDecides(u: Unit, instance: Name, links: seq<Link>, p: Path, q: Path)
    requires Linked(u, instance, links) && Unaliased(links, instance)
    requires Declared(BlockOf(u, instance), p) && Declared(BlockOf(u, instance), q)
    requires Target(u, instance, links, p) == Target(u, instance, links, q)
    ensures p == q
  {
    var a, b := [instance] + p, [instance] + q;
    assert a[0] == instance && b[0] == instance && a[1..] == p && b[1..] == q;
    if IsLinked(links, p) { assert p == [links[FindLink(links, p[0])].param]; }
    if IsLinked(links, q) { assert q == [links[FindLink(links, q[0])].param]; }
  }

  lemma LinkedIsRepresented(u: Unit, f: Frame, s: Store, names: Naming, instance: Name, links: seq<Link>)
    requires Linked(u, instance, links) && Represents(s, u, f, names) && CopiedIn(f, links, instance)
    ensures Represents(s, BlockOf(u, instance), FrameOf(f, instance), LinkedNames(links, names, instance))
  {
    InstanceIsRepresented(u, f, s, names, instance);
    var g, linked := FrameOf(f, instance), LinkedNames(links, names, instance);
    forall q | q in g ensures linked(q) in s && s[linked(q)] == g[q] {
      FramePaths(f, instance, q);
      if IsLinked(links, q) {
        var l := links[FindLink(links, q[0])];
        assert q == [l.param] && [instance] + q == [instance, l.param];
      } else {
        assert Under(names, instance)(q) == linked(q);
      }
    }
  }

  lemma MergedInside(f: Frame, instance: Name, g: Frame, q: Path)
    requires q != [] && q in g && [instance] + q in f
    ensures [instance] + q in Merge(f, instance, g) && Merge(f, instance, g)[[instance] + q] == g[q]
  {
    assert ([instance] + q)[1..] == q;
  }

  lemma ParamDeclared(u: Unit, instance: Name, links: seq<Link>, f: Frame, k: nat)
    requires Linked(u, instance, links) && IsFrame(u, f) && k < |links|
    ensures Declared(BlockOf(u, instance), [links[k].param]) && [instance, links[k].param] in f
  {
    FieldPath(u, instance, links[k].param);
    assert Declared(u, [instance, links[k].param]);
  }

  // After the copies out: the variables of the instance and the actuals.
  lemma FinalFrame(u: Unit, instance: Name, args: seq<Argument>, f: Frame, h: Frame, q: Path)
    requires HasInstance(u, instance) && IsFrame(u, f) && IsFrame(BlockOf(u, instance), h)
        && Declared(BlockOf(u, instance), q)
    requires var links := Links(args, 0, BlockOf(u, instance)); Linked(u, instance, links) && Unaliased(links, instance)
    ensures var g := CopyInOuts(args, 0, BlockOf(u, instance), instance, Merge(f, instance, h));
      var p := Target(u, instance, Links(args, 0, BlockOf(u, instance)), q);
      p in g && q in h && g[p] == h[q]
  {
    var block := BlockOf(u, instance);
    var links := Links(args, 0, block);
    var back := Merge(f, instance, h);
    assert HaveParams(links, instance, back) by {
      forall k | 0 <= k < |links| ensures [instance, links[k].param] in back {
        ParamDeclared(u, instance, links, f, k);
      }
    }
    CopiedOut(args, 0, block, instance, back);
    assert q in h;
    PathBelow(u, instance, q);
    assert Declared(u, [instance] + q);
    assert [instance] + q in f;
    MergedInside(f, instance, h, q);
    if IsLinked(links, q) {
      var k := FindLink(links, q[0]);
      assert q == [links[k].param] && [instance] + q == [instance, links[k].param];
    } else {
      assert ([instance] + q)[0] == instance && |[instance] + q| > 1;
    }
  }

  // A variable that is neither in the instance nor an actual keeps its value.
  lemma FinalOutside(u: Unit, instance: Name, args: seq<Argument>, f: Frame, h: Frame, p: Path)
    requires HasInstance(u, instance) && IsFrame(u, f) && p in f && !(|p| > 1 && p[0] == instance)
    requires var links := Links(args, 0, BlockOf(u, instance));
      Linked(u, instance, links) && Unaliased(links, instance) && forall k :: 0 <= k < |links| ==> links[k].actual != p
    ensures var g := CopyInOuts(args, 0, BlockOf(u, instance), instance, Merge(f, instance, h)); p in g && g[p] == f[p]
  {
    var block := BlockOf(u, instance);
    var links := Links(args, 0, block);
    var back := Merge(f, instance, h);
    assert HaveParams(links, instance, back) by {
      forall k | 0 <= k < |links| ensures [instance, links[k].param] in back {
        ParamDeclared(u, instance, links, f, k);
      }
    }
    CopiedOut(args, 0, block, instance, back);
  }

  lemma InsideReached(u: Unit, instance: Name, links: seq<Link>, names: Naming, q: Path)
    requires Linked(u, instance, links) && Declared(BlockOf(u, instance), q)
    ensures names([instance] + q) in FieldsOf(BlockOf(u, instance), LinkedNames(links, names, instance))
            || exists l <- links :: [instance] + q == [instance, l.param]
  {
    var linked := LinkedNames(links, names, instance);
    assert linked(q) in FieldsOf(BlockOf(u, instance), linked);
    if IsLinked(links, q) {
      var l := links[FindLink(links, q[0])];
      assert l in links && [instance] + q == [instance, l.param];
    }
  }

  lemma ActualReached(u: Unit, instance: Name, links: seq<Link>, names: Naming, f: Frame, k: nat)
    requires Linked(u, instance, links) && Unaliased(links, instance) && IsFrame(u, f) && k < |links|
    ensures names(links[k].actual) in FieldsOf(BlockOf(u, instance), LinkedNames(links, names, instance))
  {
    ParamDeclared(u, instance, links, f, k);
    var linked, q := LinkedNames(links, names, instance), [links[k].param];
    assert linked(q) in FieldsOf(BlockOf(u, instance), linked);
    assert FindLink(links, q[0]) == k;
  }

  // A field of the unit that the linked names do not reach belongs to neither
  // the instance nor an actual.
  lemma Unreached(u: Unit, instance: Name, links: seq<Link>, names: Naming, f: Frame, p: Path)
    requires Linked(u, instance, links) && Unaliased(links, instance) && IsFrame(u, f) && Declared(u, p)
    requires names(p) !in FieldsOf(BlockOf(u, instance), LinkedNames(links, names, instance))
    requires forall l <- links :: names(p) != names([instance, l.param])
    ensures !(|p| > 1 && p[0] == instance) && forall k :: 0 <= k < |links| ==> links[k].actual != p
  {
    hide Linked, Unaliased, IsFrame, FieldsOf, LinkedNames;
    if |p| > 1 && p[0] == instance {
      assert p == [instance] + p[1..];
      assert HasInstance(u, instance) && Declared(BlockOf(u, instance), p[1..]) by { PathBelow(u, instance, p[1..]); }
      InsideReached(u, instance, links, names, p[1..]);
    }
    forall k | 0 <= k < |links| ensures links[k].actual != p {
      ActualReached(u, instance, links, names, f, k);
    }
  }

  lemma SameField(u: Unit, instance: Name, args: seq<Argument>, f: Frame, s: Store, names: Naming, h: Frame,
      copied: Store, direct: Store, n: string)
    requires HasInstance(u, instance) && Represents(s, u, f, names)
    requires var links := Links(args, 0, BlockOf(u, instance)); Linked(u, instance, links) && Unaliased(links, instance)
    requires Represents(copied, u, CopyInOuts(args, 0, BlockOf(u, instance), instance, Merge(f, instance, h)), names)
    requires Kept(s, copied, FieldsOf(u, names))
    requires var linked := LinkedNames(Links(args, 0, BlockOf(u, instance)), names, instance);
      Represents(direct, BlockOf(u, instance), h, linked) && Kept(s, direct, FieldsOf(BlockOf(u, instance), linked))
    requires n in s && forall l <- Links(args, 0, BlockOf(u, instance)) :: n != names([instance, l.param])
    ensures n in copied && n in direct && copied[n] == direct[n]
  {
    hide CopyInOuts, Merge, Links, Linked, Unaliased, TypeAt;
    var block := BlockOf(u, instance);
    var links := Links(args, 0, block);
    var linked := LinkedNames(links, names, instance);
    if n in FieldsOf(block, linked) {
      var q :| Declared(block, q) && linked(q) == n;
      FinalFrame(u, instance, args, f, h, q);
      assert linked(q) == names(Target(u, instance, links, q));
    } else if n in FieldsOf(u, names) {
      var p :| Declared(u, p) && names(p) == n;
      Unreached(u, instance, links, names, f, p);
      assert p in f;
      FinalOutside(u, instance, args, f, h, p);
    }
  }

  // ----- the theorem -----

  // The parameters' own fields, which only copying keeps up to date.
  function ParamFields(links: seq<Link>, names: Naming, instance: Name): set<string> {
    set l <- links :: names([instance, l.param])
  }

  ghost predicate AgreeOff(a: Store, b: Store, fields: set<string>) {
    a.Keys == b.Keys && forall n | n in a && n !in fields :: a[n] == b[n]
  }

  // Both runs end normally, in stores that agree outside the fields.
  ghost predicate SameEffect(a: CRun, b: CRun, fields: set<string>) {
    && a.CDone? && b.CDone? && a.outcome == b.outcome == CNormal
    && AgreeOff(a.store, b.store, fields)
  }

  // From a state where the parameters hold copies of the actuals, the inlined
  // body followed by the copies out leaves every field but the parameters' own
  // as the same body compiled on the actuals themselves would.
  lemma CopyingIsByReference(u: Unit, instance: Name, args: seq<Argument>, f: Frame, s: Store, names: Naming,
                             locals: Locals, fuel: nat, inBlock: bool)
    requires Ready(u, f, s, names) && HasInstance(u, instance)
    requires SupportedArguments(args, 0, BlockOf(u, instance), u, inBlock)
    requires var links := Links(args, 0, BlockOf(u, instance));
      Linked(u, instance, links) && Unaliased(links, instance) && CopiedIn(f, links, instance)
    requires var block := BlockOf(u, instance);
      ExecBlock(block.body, block, FrameOf(f, instance), fuel).Done?
    ensures var block, links, target := BlockOf(u, instance), Links(args, 0, BlockOf(u, instance)),
        ReturnLabel(names, instance);
      SameEffect(ExecCBlock([COnce(LowerBlock(block.body, block, Under(names, instance), Body(target)), target)]
                            + LowerInOuts(args, 0, block, instance, names), s, locals, fuel),
                 ExecC(COnce(LowerBlock(block.body, block, LinkedNames(links, names, instance), Body(target)), target),
                       s, locals, fuel),
                 ParamFields(links, names, instance))
  {
    hide Represents, Distinct, Kept, FieldsOf, LowerBlock, ExecBlock, ExecCBlock, Merge, FrameOf, Under, LinkedNames,
         Links, CopyInOuts, LowerInOuts, Linked, Unaliased, CopiedIn, SupportedArguments, SupportedBlock;
    var block := BlockOf(u, instance);
    var links, target := Links(args, 0, block), ReturnLabel(names, instance);
    var linked := LinkedNames(links, names, instance);
    var h := ExecBlock(block.body, block, FrameOf(f, instance), fuel).frame;
    // by copying
    var once := COnce(LowerBlock(block.body, block, Under(names, instance), Body(target)), target);
    BodyMeans(FbCall(instance, args), u, names, target, f, s, locals, fuel);
    var mid, scope := ExecC(once, s, locals, fuel).store, ScopeAfter([once], s, locals, fuel);
    var back := Merge(f, instance, h);
    InOutsMean(args, 0, block, instance, u, back, mid, names, scope, fuel, inBlock);
    Concatenated([once], LowerInOuts(args, 0, block, instance, names), s, locals, fuel);
    Alone(once, s, locals, fuel);
    var copied := ExecCBlock(LowerInOuts(args, 0, block, instance, names), mid, scope, fuel).store;
    KeptOn(s, mid, copied, FieldsOf(u, names));
    // directly
    LinkedIsRepresented(u, f, s, names, instance, links);
    LinkedIsDistinct(u, instance, names, links);
    assert SupportedInstances(block);
    BlockMeans(block.body, block, linked, Body(target), FrameOf(f, instance), s, locals, fuel);
    var direct := ExecCBlock(LowerBlock(block.body, block, linked, Body(target)), s, locals, fuel).store;
    SameKeys(s, copied, FieldsOf(u, names));
    SameKeys(s, direct, FieldsOf(block, linked));
    forall n | n in copied && n !in ParamFields(links, names, instance) ensures copied[n] == direct[n] {
      SameField(u, instance, args, f, s, names, h, copied, direct, n);
    }
  }

  // Copies of outputs keep stores in agreement when no output reads one of the
  // fields they may differ in.
  lemma {:induction false} OutputsAgree(args: seq<Argument>, instance: Name, names: Naming, a: Store, b: Store,
      aLocals: Locals, bLocals: Locals, fuel: nat, fields: set<string>)
    requires AgreeOff(a, b, fields)
    requires forall o <- args :: o.Output? ==> names([instance, o.field]) !in fields
    requires ExecCBlock(LowerOutputs(args, instance, names), a, aLocals, fuel).CDone?
    ensures var cs := LowerOutputs(args, instance, names);
      SameEffect(ExecCBlock(cs, a, aLocals, fuel), ExecCBlock(cs, b, bLocals, fuel), fields)
    decreases |args|
  {
    if args == [] {
    } else {
      assert args[0] in args;
      var rest := LowerOutputs(args[1..], instance, names);
      if args[0].Output? {
        var x, from := names(args[0].target), names([instance, args[0].field]);
        var c := CAssign(x, CField(from));
        assert ([c] + rest)[0] == c && ([c] + rest)[1..] == rest;
        var v := Num(a[from]);
        OutputsAgree(args[1..], instance, names, a[x := Stored(a[x], v)], b[x := Stored(b[x], v)], aLocals, bLocals,
            fuel, fields);
      } else {
        assert [] + rest == rest;
        OutputsAgree(args[1..], instance, names, a, b, aLocals, bLocals, fuel, fields);
      }
    }
  }

  lemma {:induction false} SupportedIsLinked(args: seq<Argument>, position: nat, u: Unit, instance: Name, inBlock: bool)
    requires HasInstance(u, instance) && SupportedArguments(args, position, BlockOf(u, instance), u, inBlock)
    ensures Linked(u, instance, Links(args, position, BlockOf(u, instance)))
    decreases |args|
  {
    if args == [] {
    } else {
      var block := BlockOf(u, instance);
      var next := NextPosition(args[0], position);
      var links, rest := Links(args, position, block), Links(args[1..], next, block);
      SupportedIsLinked(args[1..], next, u, instance, inBlock);
      forall k | 0 <= k < |links|
        ensures Declared(u, links[k].actual) && TypeAt(u, links[k].actual) == TypeAt(block, [links[k].param])
      {
        if links != rest && k > 0 { assert links[k] == rest[k - 1]; }
      }
    }
  }

  // The call with its parameters linked: inputs are assigned as before, the
  // body works on the actuals, and nothing is copied back but the outputs.
  function LinkedCall(s: Statement, u: Unit, names: Naming): seq<CStmt>
    requires s.FbCall? && HasInstance(u, s.instance)
  {
    var block, target := BlockOf(u, s.instance), ReturnLabel(names, s.instance);
    var links := Links(s.arguments, 0, block);
    LowerInputs(s.arguments, 0, block, s.instance, u, names)
    + [COnce(LowerBlock(block.body, block, LinkedNames(links, names, s.instance), Body(target)), target)]
    + LowerOutputs(s.arguments, s.instance, names)
  }

  // A call whose VAR_IN_OUT actuals are distinct variables outside the instance,
  // and that does not also name a VAR_IN_OUT parameter as an output, leaves
  // every field but the parameters' own as passing the actuals by reference would.
  lemma CallIsByReference(s: Statement, u: Unit, f: Frame, st: Store, names: Naming, cx: Context, locals: Locals,
      fuel: nat)
    requires s.FbCall? && Ready(u, f, st, names) && SupportedStatement(s, u, cx.Body?) && Exec(s, u, f, fuel).Done?
    requires NoRepeats(Targets(s.arguments, 0, BlockOf(u, s.instance)))
    requires var links := Links(s.arguments, 0, BlockOf(u, s.instance));
      && Unaliased(links, s.instance)
      && forall a <- s.arguments, l <- links :: a.Output? ==> a.field != l.param
    ensures SameEffect(ExecCBlock(Lower(s, u, names, cx), st, locals, fuel),
        ExecCBlock(LinkedCall(s, u, names), st, locals, fuel),
                       ParamFields(Links(s.arguments, 0, BlockOf(u, s.instance)), names, s.instance))
  {
    hide Represents, Distinct, Kept, FieldsOf, LowerBlock, ExecBlock, ExecCBlock, ExecC, Merge, FrameOf, Under,
         LinkedNames, Links, CopyInOuts, LowerInOuts, LowerInputs, LowerOutputs, Linked, Unaliased, CopiedIn,
         SupportedArguments, SupportedBlock, BindInputs, CopyOutputs, ParamFields, AgreeOff;
    var instance, args := s.instance, s.arguments;
    var block, target := BlockOf(u, instance), ReturnLabel(names, instance);
    var links := Links(args, 0, block);
    var called := BindInputs(args, 0, block, instance, f).value;
    var inputs, inOuts := LowerInputs(args, 0, block, instance, u, names), LowerInOuts(args, 0, block, instance, names);
    var outputs := LowerOutputs(args, instance, names);
    InputsMean(args, 0, block, instance, u, f, st, names, locals, fuel, cx.Body?);
    var st1, l1 := ExecCBlock(inputs, st, locals, fuel).store, ScopeAfter(inputs, st, locals, fuel);
    SupportedIsLinked(args, 0, u, instance, cx.Body?);
    OutsideLinks(links, instance);
    BindCopiesIn(args, 0, block, instance, f);
    CopyingIsByReference(u, instance, args, called, st1, names, l1, fuel, cx.Body?);
    var once := COnce(LowerBlock(block.body, block, Under(names, instance), Body(target)), target);
    var linked := COnce(LowerBlock(block.body, block, LinkedNames(links, names, instance), Body(target)), target);
    Alone(linked, st1, l1, fuel);
    StatementMeans(s, u, names, cx, f, st, locals, fuel);
    SourcesApart(args, 0, u, instance, names, cx.Body?);
    assert Lower(s, u, names, cx) == inputs + (([once] + inOuts) + outputs) by {
      Regrouped(inputs, [once], inOuts, outputs);
    }
    assert LinkedCall(s, u, names) == inputs + ([linked] + outputs) by { Regrouped(inputs, [], [linked], outputs); }
    Concatenated(inputs, ([once] + inOuts) + outputs, st, locals, fuel);
    Concatenated([once] + inOuts, outputs, st1, l1, fuel);
    Concatenated(inputs, [linked] + outputs, st, locals, fuel);
    Concatenated([linked], outputs, st1, l1, fuel);
    OutputsAgree(args, instance, names, ExecCBlock([once] + inOuts, st1, l1, fuel).store,
        ExecCBlock([linked], st1, l1, fuel).store,
                 ScopeAfter([once] + inOuts, st1, l1, fuel), ScopeAfter([linked], st1, l1, fuel), fuel,
                 ParamFields(links, names, instance));
  }

  lemma Regrouped<T>(a: seq<T>, b: seq<T>, c: seq<T>, d: seq<T>)
    ensures a + b + c + d == a + ((b + c) + d)
    ensures a + c + d == a + (c + d)
  {
  }

  // The outputs read fields of their own.
  lemma SourcesApart(args: seq<Argument>, position: nat, u: Unit, instance: Name, names: Naming, inBlock: bool)
    requires HasInstance(u, instance) && Distinct(u, names)
    requires SupportedArguments(args, position, BlockOf(u, instance), u, inBlock)
    requires var links := Links(args, position, BlockOf(u, instance));
      Linked(u, instance, links) && forall a <- args, l <- links :: a.Output? ==> a.field != l.param
    ensures var links := Links(args, position, BlockOf(u, instance));
      forall o <- args :: o.Output? ==> names([instance, o.field]) !in ParamFields(links, names, instance)
  {
    hide Links;
    var links := Links(args, position, BlockOf(u, instance));
    forall o, l | o in args && o.Output? && l in links
      ensures names([instance, o.field]) != names([instance, l.param])
    {
      OutputDeclared(args, position, u, instance, o, inBlock);
      FieldPath(u, instance, o.field);
      FieldPath(u, instance, l.param);
      var k :| 0 <= k < |links| && links[k] == l;
      assert Declared(u, [instance, l.param]);
      assert [instance, o.field][1] != [instance, l.param][1];
    }
  }

  lemma {:induction false} OutputDeclared(args: seq<Argument>, position: nat, u: Unit, instance: Name, o: Argument,
      inBlock: bool)
    requires HasInstance(u, instance) && SupportedArguments(args, position, BlockOf(u, instance), u, inBlock)
    requires o in args && o.Output?
    ensures Declared(BlockOf(u, instance), [o.field])
    decreases |args|
  {
    if args[0] != o { OutputDeclared(args[1..], NextPosition(args[0], position), u, instance, o, inBlock); }
  }

  lemma SameKeys(s: Store, t: Store, fields: iset<string>)
    requires Kept(s, t, fields)
    ensures s.Keys == t.Keys
  {
  }

  lemma OutsideLinks(links: seq<Link>, instance: Name)
    requires Unaliased(links, instance)
    ensures forall l <- links :: !(|l.actual| > 1 && l.actual[0] == instance)
  {
  }
}
