/**
 * The C field names of a program's variables: path parts in lower case, joined
 * by underscores; and when distinct variables get distinct fields.
 */
module FieldNames {
  import opened Wrappers
  import opened Values
  import opened StructuredText
  import opened CCode
  import opened Lowering
  import opened ExpressionMeaning
  import opened StoreFrames

  predicate IsDigit(c: char) { '0' <= c <= '9' }
  predicate IsUpper(c: char) { 'A' <= c <= 'Z' }
  predicate IsLower(c: char) { 'a' <= c <= 'z' }
  predicate IsLetter(c: char) { IsUpper(c) || IsLower(c) }

  function Lower(c: char): char {
    if IsUpper(c) then (c as int + 32) as char else c
  }

  function SanitizedChar(c: char): char {
    if IsLetter(c) || IsDigit(c) || c == '_' then Lower(c) else '_'
  }

  function SanitizedChars(s: string): (r: string)
    ensures |r| == |s| && forall k :: 0 <= k < |s| ==> r[k] == SanitizedChar(s[k])
  {
    seq(|s|, k requires 0 <= k < |s| => SanitizedChar(s[k]))
  }

  // `sanitize_c_ident`.
  function Sanitized(s: string): string {
    if s == "" then "_"
    else if IsDigit(s[0]) then "_" + SanitizedChars(s)
    else SanitizedChars(s)
  }

  // `var_to_c` of a path.
  function JoinedParts(p: Path): string {
    if p == [] then ""
    else if |p| == 1 then Sanitized(p[0])
    else Sanitized(p[0]) + "_" + JoinedParts(p[1..])
  }

  // `field_key_for_c`: the dotted name of a nested instance.
  function InstanceKey(p: Path): string {
    if p == [] then "" else if |p| == 1 then p[0] else p[0] + "." + InstanceKey(p[1..])
  }

  // `fb_field_ident`, and `user_fb_var_to_c` of a path of two names.
  function FieldIdent(instance: string, field: string): string {
    Sanitized(instance) + "_" + Sanitized(field)
  }

  // An identifier, which may contain underscores.
  predicate Identifier(n: Name) {
    n != "" && !IsDigit(n[0]) && forall k :: 0 <= k < |n| ==> IsLetter(n[k]) || IsDigit(n[k]) || n[k] == '_'
  }

  // In canonical form, upper case, and without underscores.
  predicate Plain(n: Name) {
    n != "" && IsUpper(n[0]) && forall k :: 0 <= k < |n| ==> IsUpper(n[k]) || IsDigit(n[k])
  }

  // ----- all the ways to name a nested field agree -----

  lemma DottedChars(a: string, b: string)
    ensures SanitizedChars(a + "." + b) == SanitizedChars(a) + "_" + SanitizedChars(b)
  {
  }

  lemma SanitizedDot(a: string, b: string)
    requires Identifier(b)
    ensures a != "" ==> Sanitized(a + "." + b) == Sanitized(a) + "_" + Sanitized(b)
  {
    if a != "" {
      var s := a + "." + b;
      DottedChars(a, b);
      hide SanitizedChars;
      assert s[0] == a[0];
      assert "_" + (SanitizedChars(a) + "_" + SanitizedChars(b)) == ("_" + SanitizedChars(a)) + "_" + SanitizedChars(b);
    }
  }

  lemma {:induction false} SanitizedKey(p: Path)
    requires p != [] && forall n <- p :: Identifier(n)
    ensures Sanitized(InstanceKey(p)) == JoinedParts(p)
    ensures Identifier(p[0]) && InstanceKey(p) != "" && !IsDigit(InstanceKey(p)[0])
  {
    assert Identifier(p[0]);
    if |p| <= 1 {
    } else {
      SanitizedKey(p[1..]);
      DottedChars(p[0], InstanceKey(p[1..]));
      hide SanitizedChars;
    }
  }

  lemma Regroup(a: string, b: string, c: string)
    ensures a + "_" + (b + "_" + c) == (a + "_" + b) + "_" + c
  {
  }

  lemma {:induction false} JoinedLast(p: Path, field: Name)
    requires p != []
    ensures JoinedParts(p + [field]) == JoinedParts(p) + "_" + Sanitized(field)
  {
    hide Sanitized;
    assert (p + [field])[1..] == p[1..] + [field];
    if |p| > 1 {
      JoinedLast(p[1..], field);
      Regroup(Sanitized(p[0]), JoinedParts(p[1..]), Sanitized(field));
    } else {
      assert p[1..] + [field] == [field];
    }
  }

  // A field of a nested instance has one name, whether the code being emitted
  // is the program's, the outer block's (instance.field) or the inner block's.
  lemma NestedFieldHasOneName(outer: Path, inner: Name, field: Name)
    requires outer != [] && (forall n <- outer :: Identifier(n)) && Identifier(inner) && Identifier(field)
    ensures FieldIdent(InstanceKey(outer + [inner]), field) == JoinedParts(outer + [inner, field])
    ensures FieldIdent(InstanceKey(outer), Sanitized(inner) + "." + Sanitized(field))
        == JoinedParts(outer + [inner, field])
  {
    hide Sanitized, JoinedParts, InstanceKey, Identifier;
    assert outer + [inner] + [field] == outer + [inner, field];
    JoinedLast(outer + [inner], field);
    JoinedLast(outer, inner);
    SanitizedKey(outer + [inner]);
    SanitizedKey(outer);
    SanitizedTwice(inner);
    SanitizedTwice(field);
    SanitizedDot(Sanitized(inner), Sanitized(field));
    Regroup(JoinedParts(outer), Sanitized(inner), Sanitized(field));
  }

  lemma SanitizedTwice(n: Name)
    requires Identifier(n)
    ensures Identifier(Sanitized(n)) && Sanitized(n) != "" && Sanitized(Sanitized(n)) == Sanitized(n)
  {
    var s := SanitizedChars(n);
    assert SanitizedChars(s) == s;
  }

  // ----- distinct fields -----

  lemma PlainSanitized(n: Name)
    requires Plain(n)
    ensures Sanitized(n) == SanitizedChars(n) && |Sanitized(n)| == |n| > 0
    ensures forall k :: 0 <= k < |n| ==> Sanitized(n)[k] != '_'
  {
  }

  lemma PlainDecides(a: Name, b: Name)
    requires Plain(a) && Plain(b) && Sanitized(a) == Sanitized(b)
    ensures a == b
  {
    PlainSanitized(a);
    PlainSanitized(b);
    assert |a| == |b|;
    forall k | 0 <= k < |a| ensures a[k] == b[k] {
      assert Lower(a[k]) == Sanitized(a)[k] == Sanitized(b)[k] == Lower(b[k]);
    }
  }

  // ----- the variables of a unit, as a finite set -----

  function PathSet(u: Unit): set<Path> {
    (set d <- u.vars :: [d.name])
    + set i: nat, p | i < |u.instances| && FindInstance(u.instances, u.instances[i].name) == i
        && p in PathSet(u.instances[i].block)
        :: [u.instances[i].name] + p
  }

  lemma {:induction false} FoundVar(vars: seq<Declaration>, d: Declaration)
    requires d in vars
    ensures FindVar(vars, d.name).Some?
  {
    if vars[0] == d {
    } else {
      FoundVar(vars[1..], d);
    }
  }

  lemma {:induction false} PathsAreDeclared(u: Unit, p: Path)
    ensures p in PathSet(u) <==> Declared(u, p)
    ensures p in PathSet(u) ==> p != []
    decreases u, p
  {
    if p == [] {
    } else if |p| == 1 {
      forall d <- u.vars ensures FindVar(u.vars, d.name).Some? { FoundVar(u.vars, d); }
      assert p == [p[0]];
      forall i: nat, q | i < |u.instances| && q in PathSet(u.instances[i].block) ensures q != [] {
        PathsAreDeclared(u.instances[i].block, q);
      }
    } else {
      var i := FindInstance(u.instances, p[0]);
      assert p == [p[0]] + p[1..];
      forall d <- u.vars ensures [d.name] != p { assert |[d.name]| == 1; }
      if p in PathSet(u) {
        var k: nat, q :| k < |u.instances| && FindInstance(u.instances, u.instances[k].name) == k
                         && q in PathSet(u.instances[k].block) && p == [u.instances[k].name] + q;
        assert k == i && q == p[1..];
      }
      if i < |u.instances| { PathsAreDeclared(u.instances[i].block, p[1..]); }
    }
  }

  predicate FieldsDistinct(u: Unit, names: Naming) {
    forall p, q | p in PathSet(u) && q in PathSet(u) && names(p) == names(q) :: p == q
  }

  // The test is finite.
  lemma DistinctIsDecided(u: Unit, names: Naming)
    ensures Distinct(u, names) <==> FieldsDistinct(u, names)
  {
    hide PathSet, Declared;
    forall p ensures p in PathSet(u) <==> Declared(u, p) { PathsAreDeclared(u, p); }
  }

  // ----- what shared fields cost -----

  function Default(t: Ty, n: nat): Value {
    if t.TBool? then VBool(n == 1) else VInt(n)
  }

  // A frame of the unit in which one variable differs from all others, of one
  // type in value, of two in kind.
  function Marked(u: Unit, p: Path): Frame {
    map r | r in PathSet(u) :: Default(if Declared(u, r) then TypeAt(u, r).value else TInt, if r == p then 1 else 0)
  }

  lemma MarkedIsFrame(u: Unit, p: Path)
    ensures IsFrame(u, Marked(u, p))
  {
    hide TypeAt, PathSet;
    forall r ensures r in PathSet(u) <==> Declared(u, r) { PathsAreDeclared(u, r); }
  }

  lemma NoStoreFits(f: Frame, names: Naming, p: Path, q: Path)
    requires p in f && q in f && names(p) == names(q) && f[p] != f[q]
    ensures forall s :: !Holds(s, f, names)
  {
  }

  lemma CollisionNeedsTwoFields(u: Unit, names: Naming, p: Path, q: Path)
    requires Declared(u, p) && Declared(u, q) && names(p) == names(q) && p != q
    ensures exists f :: IsFrame(u, f) && forall s :: !Represents(s, u, f, names)
  {
    hide IsFrame, Holds, PathSet, TypeAt;
    var f := Marked(u, p);
    MarkedIsFrame(u, p);
    PathsAreDeclared(u, p);
    PathsAreDeclared(u, q);
    NoStoreFits(f, names, p, q);
    assert forall s: Store :: !Represents(s, u, f, names);
  }

  lemma StoreForFrame(u: Unit, names: Naming, f: Frame)
    requires Distinct(u, names) && IsFrame(u, f)
    ensures exists s :: Represents(s, u, f, names)
  {
    forall r ensures r in PathSet(u) <==> Declared(u, r) { PathsAreDeclared(u, r); }
    var fields := set r <- PathSet(u) :: names(r);
    var s: Store := map n | n in fields :: var r :| r in PathSet(u) && names(r) == n; f[r];
    forall p | p in f ensures names(p) in s && s[names(p)] == f[p] {
      assert p in PathSet(u) && names(p) in fields;
    }
    assert Represents(s, u, f, names);
  }

  // Every state of the program has a place in the C state exactly when no two
  // variables share a field.
  lemma DistinctIffEveryFrameFits(u: Unit, names: Naming)
    ensures Distinct(u, names) <==> forall f | IsFrame(u, f) :: exists s :: Represents(s, u, f, names)
  {
    hide IsFrame, Represents, Declared;
    if Distinct(u, names) {
      forall f | IsFrame(u, f) ensures exists s :: Represents(s, u, f, names) { StoreForFrame(u, names, f); }
    } else {
      var p, q :| Declared(u, p) && Declared(u, q) && names(p) == names(q) && p != q;
      CollisionNeedsTwoFields(u, names, p, q);
    }
  }

  // ----- names that keep fields apart -----

  // One text followed by an underscore starts the other so followed.
  predicate Clash(a: string, b: string) {
    a + "_" <= b + "_" || b + "_" <= a + "_"
  }

  lemma DifferentStarts(a: string, b: string, x: string, y: string)
    requires a + "_" + x == b + "_" + y
    ensures Clash(a, b)
  {
    var s := a + "_" + x;
    assert a + "_" == s[..|a| + 1] && b + "_" == s[..|b| + 1];
  }

  // On each level: the variables have names of their own, no variable has the
  // name of a field of an instance, and the instances' names do not clash.
  predicate Separate(u: Unit) {
    && (forall a, b | a in u.vars && b in u.vars && Sanitized(a.name) == Sanitized(b.name) :: a.name == b.name)
    && (forall d, i, q | d in u.vars && i in u.instances && q in PathSet(i.block) ::
          Sanitized(d.name) != Sanitized(i.name) + "_" + JoinedParts(q))
    && (forall i, j | i in u.instances && j in u.instances
        && i.name != j.name :: !Clash(Sanitized(i.name), Sanitized(j.name)))
    && forall i <- u.instances :: Separate(i.block)
  }

  lemma HeadDeclared(u: Unit, p: Path)
    requires Declared(u, p)
    ensures p != []
    ensures |p| == 1 ==> exists d :: d in u.vars && d.name == p[0]
    ensures |p| > 1 ==>
      exists i :: i in u.instances && i.name == p[0] && i.block == BlockOf(u, p[0]) && p[1..] in PathSet(i.block)
  {
    if |p| == 1 {
      var d := FindVar(u.vars, p[0]).value;
      assert d in u.vars && d.name == p[0];
    } else {
      var i := u.instances[FindInstance(u.instances, p[0])];
      assert i in u.instances;
      PathsAreDeclared(i.block, p[1..]);
    }
  }

  lemma {:induction false} SeparatePathsDiffer(u: Unit, p: Path, q: Path)
    requires Separate(u) && Declared(u, p) && Declared(u, q) && JoinedParts(p) == JoinedParts(q)
    ensures p == q
    decreases |p|
  {
    hide Sanitized, PathSet;
    HeadDeclared(u, p);
    HeadDeclared(u, q);
    assert p == [p[0]] + p[1..] && q == [q[0]] + q[1..];
    if |p| > 1 && |q| > 1 {
      if p[0] == q[0] {
        assert JoinedParts(p[1..]) == JoinedParts(q[1..]) by {
          var a, b := JoinedParts(p[1..]), JoinedParts(q[1..]);
          var n := |Sanitized(p[0])| + 1;
          assert a == JoinedParts(p)[n..] && b == JoinedParts(q)[n..];
        }
        SeparatePathsDiffer(BlockOf(u, p[0]), p[1..], q[1..]);
      } else {
        DifferentStarts(Sanitized(p[0]), Sanitized(q[0]), JoinedParts(p[1..]), JoinedParts(q[1..]));
      }
    }
  }

  // Flattening keeps the variables of such a unit apart ...
  lemma SeparateIsDistinct(u: Unit)
    requires Separate(u)
    ensures Distinct(u, JoinedParts)
  {
    hide Separate, JoinedParts;
    forall p, q | Declared(u, p) && Declared(u, q) && JoinedParts(p) == JoinedParts(q) ensures p == q {
      SeparatePathsDiffer(u, p, q);
    }
  }

  predicate PlainUnit(u: Unit) {
    (forall d <- u.vars :: Plain(d.name)) && forall i <- u.instances :: Plain(i.name) && PlainUnit(i.block)
  }

  // ... such as one without underscores in its names.
  lemma {:induction false} PlainIsSeparate(u: Unit)
    requires PlainUnit(u)
    ensures Separate(u)
  {
    hide Sanitized, Plain, PathSet;
    forall a, b | a in u.vars && b in u.vars && Sanitized(a.name) == Sanitized(b.name) ensures a.name == b.name {
      PlainDecides(a.name, b.name);
    }
    forall d, i, q | d in u.vars && i in u.instances && q in PathSet(i.block)
      ensures Sanitized(d.name) != Sanitized(i.name) + "_" + JoinedParts(q)
    {
      PlainSanitized(d.name);
      var t := Sanitized(i.name) + "_" + JoinedParts(q);
      assert t[|Sanitized(i.name)|] == '_';
    }
    forall i, j | i in u.instances && j in u.instances && i.name != j.name
      ensures !Clash(Sanitized(i.name), Sanitized(j.name))
    {
      if Clash(Sanitized(i.name), Sanitized(j.name)) { PlainNamesClash(i.name, j.name); }
    }
    forall i <- u.instances ensures Separate(i.block) { PlainIsSeparate(i.block); }
  }

  lemma PlainNamesClash(a: Name, b: Name)
    requires Plain(a) && Plain(b) && Clash(Sanitized(a), Sanitized(b))
    ensures a == b
  {
    PlainSanitized(a);
    PlainSanitized(b);
    hide Sanitized, Plain;
    var s, t := Sanitized(a) + "_", Sanitized(b) + "_";
    assert s[|a|] == '_' && t[|b|] == '_';
    assert |a| == |b|;
    assert s[..|a|] == Sanitized(a) && t[..|b|] == Sanitized(b);
    PlainDecides(a, b);
  }

  // With underscores the fields may be shared: A_B and the B of instance A.
  lemma UnderscoreCollides(u: Unit)
    requires Declared(u, ["A_B"]) && Declared(u, ["A", "B"])
    ensures exists f :: IsFrame(u, f) && forall s :: !Represents(s, u, f, JoinedParts)
  {
    assert SanitizedChars("A_B") == "a_b" && SanitizedChars("A") == "a" && SanitizedChars("B") == "b";
    assert JoinedParts(["A", "B"]) == Sanitized("A") + "_" + JoinedParts(["A", "B"][1..]);
    assert ["A", "B"][1..] == ["B"];
    assert JoinedParts(["A_B"]) == JoinedParts(["A", "B"]);
    assert ["A_B"] != ["A", "B"];
    CollisionNeedsTwoFields(u, JoinedParts, ["A_B"], ["A", "B"]);
  }
}
