/**
 * Storage layout of arrays of arrays through aliases. The declaration, the
 * initialiser and the index expression each walk the type on their own; all
 * three agree on one row-major layout.
 */
module ArrayLayout {
  import opened Wrappers
  import opened TypeAliases

  const USIZE_MAX: int := 0xFFFF_FFFF_FFFF_FFFF

  function RangeLen(r: Subrange): nat {
    if r.high - r.low + 1 > 0 then r.high - r.low + 1 else 0
  }

  function Lens(ranges: seq<Subrange>): (lens: seq<nat>)
    ensures |lens| == |ranges| && forall k :: 0 <= k < |ranges| ==> lens[k] == RangeLen(ranges[k])
  {
    seq(|ranges|, k requires 0 <= k < |ranges| => RangeLen(ranges[k]))
  }

  // ----- mixed-radix positions -----

  function Count(lens: seq<nat>): nat {
    if lens == [] then 1 else lens[0] * Count(lens[1..])
  }

  predicate InBounds(lens: seq<nat>, index: seq<int>) {
    |index| == |lens| && forall k :: 0 <= k < |lens| ==> 0 <= index[k] < lens[k]
  }

  // The row-major cell of a zero-based index tuple in a C array `T a[l0][l1]...`.
  function Cell(lens: seq<nat>, index: seq<int>): int
    requires |index| == |lens|
  {
    if lens == [] then 0 else index[0] * Count(lens[1..]) + Cell(lens[1..], index[1..])
  }

  // The digits of an offset: what the emitted subscripts should be.
  function Digits(lens: seq<nat>, offset: nat): seq<int> {
    if lens == [] then []
    else
      var stride := Count(lens[1..]);
      if stride == 0 then [0] + Digits(lens[1..], 0)
      else [offset / stride] + Digits(lens[1..], offset % stride)
  }

  lemma {:induction false} CellInBounds(lens: seq<nat>, index: seq<int>)
    requires InBounds(lens, index)
    ensures 0 <= Cell(lens, index) < Count(lens)
  {
    if lens == [] {
    } else {
      var c := Count(lens[1..]);
      CellInBounds(lens[1..], index[1..]);
      assert 0 <= index[0] * c <= (lens[0] - 1) * c by {
        Scale(0, index[0], c);
        Scale(index[0], lens[0] - 1, c);
      }
      assert lens[0] * c == (lens[0] - 1) * c + c;
    }
  }

  lemma Scale(a: int, b: int, c: int)
    requires a <= b && c >= 0
    ensures a * c <= b * c
  {
    assert (b - a) * c >= 0;
  }

  // Distinct index tuples are distinct cells.
  lemma {:induction false} CellsAreDistinct(lens: seq<nat>, a: seq<int>, b: seq<int>)
    requires InBounds(lens, a) && InBounds(lens, b) && Cell(lens, a) == Cell(lens, b)
    ensures a == b
  {
    if lens == [] {
    } else {
      var c := Count(lens[1..]);
      CellInBounds(lens[1..], a[1..]);
      CellInBounds(lens[1..], b[1..]);
      SameDigit(a[0], b[0], Cell(lens[1..], a[1..]), Cell(lens[1..], b[1..]), c);
      CellsAreDistinct(lens[1..], a[1..], b[1..]);
      assert a == [a[0]] + a[1..] && b == [b[0]] + b[1..];
    }
  }

  lemma SameDigit(p: int, q: int, r: int, s: int, c: int)
    requires 0 <= r < c && 0 <= s < c && p * c + r == q * c + s
    ensures p == q && r == s
  {
    if p < q { Scale(p + 1, q, c); }
    if q < p { Scale(q + 1, p, c); }
  }

  lemma Division(offset: nat, n: nat, c: nat)
    requires offset < n * c
    ensures c > 0 && offset == (offset / c) * c + offset % c && 0 <= offset / c < n
  {
    assert offset == (offset / c) * c + offset % c;
    if offset / c >= n { Scale(n, offset / c, c); }
  }

  // The digits of an offset address the cell with that number.
  lemma {:induction false} DigitsAddress(lens: seq<nat>, offset: nat)
    requires offset < Count(lens)
    ensures InBounds(lens, Digits(lens, offset)) && Cell(lens, Digits(lens, offset)) == offset
  {
    if lens == [] {
    } else {
      var c := Count(lens[1..]);
      Division(offset, lens[0], c);
      DigitsAddress(lens[1..], offset % c);
      var d := Digits(lens, offset);
      assert d == [offset / c] + Digits(lens[1..], offset % c);
      assert d[1..] == Digits(lens[1..], offset % c);
    }
  }

  lemma {:induction false} CellAppend(lens: seq<nat>, rest: seq<nat>, a: seq<int>, b: seq<int>)
    requires |a| == |lens| && |b| == |rest|
    ensures Count(lens + rest) == Count(lens) * Count(rest)
    ensures Cell(lens + rest, a + b) == Cell(lens, a) * Count(rest) + Cell(rest, b)
  {
    if lens == [] {
      assert lens + rest == rest && a + b == b;
    } else {
      assert (lens + rest)[1..] == lens[1..] + rest && (a + b)[1..] == a[1..] + b;
      CellAppend(lens[1..], rest, a[1..], b);
      Distribute(a[0], Count(lens[1..]), Cell(lens[1..], a[1..]), Count(rest));
      Distribute(lens[0], Count(lens[1..]), 0, Count(rest));
    }
  }

  lemma Distribute(a: int, n: int, c: int, m: int)
    ensures (a * n + c) * m == a * (n * m) + c * m
  {
  }

  // ----- `c_zero_based_indices` and `array_element_count` -----

  function SaturatingMul(a: nat, b: nat): nat {
    if a * b > USIZE_MAX then USIZE_MAX else a * b
  }

  function Capped(n: nat): nat {
    if n > USIZE_MAX then USIZE_MAX else n
  }

  lemma CappedProduct(a: nat, b: nat)
    ensures SaturatingMul(Capped(a), b) == Capped(a * b)
  {
    if a > USIZE_MAX && b > 0 {
      Scale(1, b, a);
      Scale(1, b, USIZE_MAX);
    }
  }

  lemma {:induction false} CountAppend(lens: seq<nat>, n: nat)
    ensures Count(lens + [n]) == Count(lens) * n
  {
    if lens == [] {
      assert [n][1..] == [] && [] + [n] == [n];
    } else {
      assert (lens + [n])[1..] == lens[1..] + [n];
      CountAppend(lens[1..], n);
      assert lens[0] * (Count(lens[1..]) * n) == lens[0] * Count(lens[1..]) * n;
    }
  }

  // The saturating fold is the product, cut off at the largest usize.
  method ArrayElementCount(ranges: seq<Subrange>) returns (total: nat)
    ensures total == Capped(Count(Lens(ranges)))
  {
    total := 1;
    var lens := Lens(ranges);
    for k := 0 to |ranges|
      invariant total == Capped(Count(lens[..k]))
    {
      assert lens[..k + 1] == lens[..k] + [lens[k]];
      CountAppend(lens[..k], lens[k]);
      CappedProduct(Count(lens[..k]), lens[k]);
      total := SaturatingMul(total, RangeLen(ranges[k]));
    }
    assert lens[..|ranges|] == lens;
  }

  method ZeroBasedIndices(offset: nat, ranges: seq<Subrange>) returns (indices: seq<int>)
    requires forall k :: 0 <= k <= |ranges| ==> Count(Lens(ranges[k..])) <= USIZE_MAX
    ensures indices == Digits(Lens(ranges), offset)
  {
    var remaining: nat := offset;
    indices := [];
    ghost var whole := Digits(Lens(ranges), offset);
    assert Produces(indices, ranges, 0, remaining, whole) by { assert ranges[0..] == ranges; }
    for position := 0 to |ranges|
      invariant Produces(indices, ranges, position, remaining, whole)
    {
      var stride := ArrayElementCount(ranges[position + 1..]);
      NextDigit(indices, ranges, position, remaining, whole);
      indices := indices + [if stride == 0 then 0 else remaining / stride];
      remaining := if stride == 0 then 0 else remaining % stride;
    }
  }

  // The digits found so far, and those of the remainder, make up the whole.
  ghost predicate Produces(indices: seq<int>, ranges: seq<Subrange>, position: nat, remaining: nat, whole: seq<int>) {
    position <= |ranges| && indices + Digits(Lens(ranges[position..]), remaining) == whole
  }

  lemma NextDigit(indices: seq<int>, ranges: seq<Subrange>, position: nat, remaining: nat, whole: seq<int>)
    requires position < |ranges| && Produces(indices, ranges, position, remaining, whole)
    ensures var stride := Count(Lens(ranges[position + 1..]));
      if stride == 0 then Produces(indices + [0], ranges, position + 1, 0, whole)
      else Produces(indices + [remaining / stride], ranges, position + 1, remaining % stride, whole)
  {
    var tail := Lens(ranges[position + 1..]);
    assert Lens(ranges[position..])[1..] == tail;
    var stride := Count(tail);
    var digit := if stride == 0 then 0 else remaining / stride;
    var rest := if stride == 0 then 0 else remaining % stride;
    assert Digits(Lens(ranges[position..]), remaining) == [digit] + Digits(tail, rest);
    assert indices + ([digit] + Digits(tail, rest)) == (indices + [digit]) + Digits(tail, rest);
  }

  // ----- the levels of a type -----

  // Declared names get ranks that fall along every type definition: no type
  // contains itself.
  ghost predicate WellFounded(table: Table, rank: map<string, nat>) {
    forall n :: n in Declared(table) ==>
      Find(table, n).Some? && n in rank && NameRank(table, rank, Find(table, n).value) <= rank[n]
  }

  ghost function NameRank(table: Table, rank: map<string, nat>, spec: Spec): nat {
    match spec
    case Scalar(_) => 0
    case Named(n) => if n in Declared(table) && n in rank then rank[n] + 1 else 0
    case Array(_, e) => NameRank(table, rank, e)
  }

  lemma {:induction false} ResolveDescends(table: Table, rank: map<string, nat>, spec: Spec, seen: set<string>)
    requires WellFounded(table, rank)
    ensures var r := ResolveFrom(table, spec, seen);
      r == spec || (spec.Named? && NameRank(table, rank, r) < NameRank(table, rank, spec))
    decreases Declared(table) - seen
  {
    if spec.Named? && spec.name !in seen && Find(table, spec.name).Some? {
      FoundIsDeclared(table, spec.name);
      ResolveDescends(table, rank, Find(table, spec.name).value, seen + {spec.name});
    }
  }

  // The ranges of each array level, outermost first.
  ghost function Levels(table: Table, rank: map<string, nat>, spec: Spec): seq<seq<Subrange>>
    requires WellFounded(table, rank)
    decreases NameRank(table, rank, spec), spec
  {
    ResolveDescends(table, rank, spec, {});
    match Resolve(table, spec)
    case Array(ranges, element) => [ranges] + Levels(table, rank, element)
    case _ => []
  }

  function Flatten(levels: seq<seq<Subrange>>): seq<Subrange> {
    if levels == [] then [] else levels[0] + Flatten(levels[1..])
  }

  // ----- the declaration -----

  // The dimensions of the C declaration, and the type of its elements.
  method PeelArrayDimensions(table: Table, ghost rank: map<string, nat>, spec: Spec)
    returns (base: Spec, dimensions: seq<Subrange>)
    requires WellFounded(table, rank)
    ensures dimensions == Flatten(Levels(table, rank, spec))
    ensures !Resolve(table, base).Array?
  {
    base := spec;
    dimensions := [];
    while true
      invariant dimensions + Flatten(Levels(table, rank, base)) == Flatten(Levels(table, rank, spec))
      decreases NameRank(table, rank, base), base
    {
      match base
      case Array(ranges, element) =>
        assert Resolve(table, base) == base;
        dimensions := dimensions + ranges;
        base := element;
      case Named(_) =>
        var resolved := Resolve(table, base);
        ResolveDescends(table, rank, base, {});
        ResolveIsIdempotent(table, base);
        if !resolved.Array? { return; }
        base := resolved;
      case Scalar(_) => return;
    }
  }

  // ----- the initialiser -----

  datatype Init = Elements(elements: seq<Init>) | Value(text: string)
  datatype Write = Write(path: seq<int>, init: Option<Init>)

  function ElementsOf(init: Option<Init>): seq<Init> {
    if init.Some? && init.value.Elements? then init.value.elements else []
  }

  function ElementAt(init: Option<Init>, offset: nat): Option<Init> {
    if offset < |ElementsOf(init)| then Some(ElementsOf(init)[offset]) else None
  }

  // The assignments emitted for a nest of levels, from `offset` of the first on.
  function WritesFrom(levels: seq<seq<Subrange>>, path: seq<int>, init: Option<Init>, offset: nat): seq<Write>
    requires levels != []
    decreases |levels|, 1, Count(Lens(levels[0])) - offset
  {
    var lens := Lens(levels[0]);
    if offset >= Count(lens) then []
    else
      Writes(levels[1..], path + Digits(lens, offset), ElementAt(init, offset)) +
      WritesFrom(levels, path, init, offset + 1)
  }

  function Writes(levels: seq<seq<Subrange>>, path: seq<int>, init: Option<Init>): seq<Write>
    decreases |levels|, 2, 0
  {
    if levels == [] then [Write(path, init)] else WritesFrom(levels, path, init, 0)
  }

  predicate Addressable(levels: seq<seq<Subrange>>) {
    forall l, k :: 0 <= l < |levels| && 0 <= k <= |levels[l]| ==> Count(Lens(levels[l][k..])) <= USIZE_MAX
  }

  class CEmitter {
    var writes: seq<Write>

    constructor ()
      ensures writes == []
    {
      writes := [];
    }

    method EmitInitializer(target: seq<int>, table: Table, ghost rank: map<string, nat>, spec: Spec,
        initial: Option<Init>)
      requires WellFounded(table, rank) && Addressable(Levels(table, rank, spec))
      modifies this
      ensures writes == old(writes) + Writes(Levels(table, rank, spec), target, initial)
      decreases NameRank(table, rank, spec), spec, 0
    {
      ResolveDescends(table, rank, spec, {});
      var resolved := Resolve(table, spec);
      if resolved.Array? {
        AddressableInside(resolved.ranges, Levels(table, rank, resolved.element));
        EmitElements(target, table, rank, resolved.ranges, resolved.element, initial);
      } else {
        writes := writes + [Write(target, initial)];
      }
    }

    // The loop over the offsets of one array level.
    method EmitElements(target: seq<int>, table: Table, ghost rank: map<string, nat>,
                        ranges: seq<Subrange>, element: Spec, initial: Option<Init>)
      requires WellFounded(table, rank) && Addressable(Levels(table, rank, element))
      requires forall k :: 0 <= k <= |ranges| ==> Count(Lens(ranges[k..])) <= USIZE_MAX
      modifies this
      ensures writes == old(writes) + WritesFrom([ranges] + Levels(table, rank, element), target, initial, 0)
      decreases NameRank(table, rank, element), element, 1
    {
      ghost var inner := Levels(table, rank, element);
      assert ranges[0..] == ranges;
      var total := ArrayElementCount(ranges);
      ghost var before := writes;
      for offset := 0 to total
        invariant writes + WritesFrom([ranges] + inner, target, initial, offset) ==
                  before + WritesFrom([ranges] + inner, target, initial, 0)
      {
        var digits := ZeroBasedIndices(offset, ranges);
        NextOffset(ranges, inner, target, initial, offset);
        EmitInitializer(target + digits, table, rank, element, ElementAt(initial, offset));
      }
    }
  }

  lemma NextOffset(ranges: seq<Subrange>, inner: seq<seq<Subrange>>, path: seq<int>, init: Option<Init>, offset: nat)
    requires offset < Count(Lens(ranges))
    ensures WritesFrom([ranges] + inner, path, init, offset) ==
            Writes(inner, path + Digits(Lens(ranges), offset), ElementAt(init, offset)) +
            WritesFrom([ranges] + inner, path, init, offset + 1)
  {
    assert ([ranges] + inner)[1..] == inner;
  }

  lemma AddressableInside(ranges: seq<Subrange>, inner: seq<seq<Subrange>>)
    requires Addressable([ranges] + inner)
    ensures Addressable(inner)
    ensures forall k :: 0 <= k <= |ranges| ==> Count(Lens(ranges[k..])) <= USIZE_MAX
  {
    var levels := [ranges] + inner;
    assert levels[0] == ranges;
    forall l, k | 0 <= l < |inner| && 0 <= k <= |inner[l]| ensures Count(Lens(inner[l][k..])) <= USIZE_MAX {
      assert levels[l + 1] == inner[l];
    }
  }

  // The literal that belongs to a zero-based index tuple, level by level.
  function LiteralAt(levels: seq<seq<Subrange>>, init: Option<Init>, index: seq<int>): Option<Init>
    decreases |levels|
  {
    if levels == [] || |index| < |levels[0]| then init
    else
      var n := |levels[0]|;
      var offset := Cell(Lens(levels[0]), index[..n]);
      LiteralAt(levels[1..], if offset >= 0 then ElementAt(init, offset) else None, index[n..])
  }

  lemma LensAppend(a: seq<Subrange>, b: seq<Subrange>)
    ensures Lens(a + b) == Lens(a) + Lens(b)
  {
  }

  function Storage(levels: seq<seq<Subrange>>): seq<nat> {
    Lens(Flatten(levels))
  }

  // The write that sets a cell: its digits below `path`, and its literal.
  function CellWrite(levels: seq<seq<Subrange>>, path: seq<int>, init: Option<Init>, cell: nat): Write {
    var digits := Digits(Storage(levels), cell);
    Write(path + digits, LiteralAt(levels, init, digits))
  }

  lemma StorageSplits(levels: seq<seq<Subrange>>)
    requires levels != []
    ensures Storage(levels) == Lens(levels[0]) + Storage(levels[1..])
    ensures Count(Storage(levels)) == Count(Lens(levels[0])) * Count(Storage(levels[1..]))
  {
    LensAppend(levels[0], Flatten(levels[1..]));
    var zeros: seq<int> := seq(|levels[0]|, _ => 0);
    var zeros': seq<int> := seq(|Storage(levels[1..])|, _ => 0);
    CellAppend(Lens(levels[0]), Storage(levels[1..]), zeros, zeros');
  }

  // An index tuple is the digits of its own cell.
  lemma DigitsOf(lens: seq<nat>, index: seq<int>, cell: nat)
    requires InBounds(lens, index) && Cell(lens, index) == cell
    ensures Digits(lens, cell) == index
  {
    CellInBounds(lens, index);
    DigitsAddress(lens, cell);
    CellsAreDistinct(lens, Digits(lens, cell), index);
  }

  lemma BoundsAppend(lens: seq<nat>, rest: seq<nat>, a: seq<int>, b: seq<int>)
    requires InBounds(lens, a) && InBounds(rest, b)
    ensures InBounds(lens + rest, a + b)
  {
  }

  lemma JoinedDigits(lens: seq<nat>, rest: seq<nat>, a: seq<int>, b: seq<int>, cell: nat)
    requires InBounds(lens, a) && InBounds(rest, b)
    requires cell == Cell(lens, a) * Count(rest) + Cell(rest, b)
    ensures Digits(lens + rest, cell) == a + b
  {
    BoundsAppend(lens, rest, a, b);
    CellAppend(lens, rest, a, b);
    DigitsOf(lens + rest, a + b, cell);
  }

  // Below element a, the write of cell k is the write of the joined cell.
  lemma ElementCell(levels: seq<seq<Subrange>>, path: seq<int>, init: Option<Init>, a: seq<int>, offset: nat,
      k: nat, cell: nat)
    requires levels != [] && InBounds(Lens(levels[0]), a) && Cell(Lens(levels[0]), a) == offset
    requires k < Count(Storage(levels[1..])) && cell == offset * Count(Storage(levels[1..])) + k
    ensures CellWrite(levels[1..], path + a, ElementAt(init, offset), k) == CellWrite(levels, path, init, cell)
  {
    var rest := Storage(levels[1..]);
    var b := Digits(rest, k);
    DigitsAddress(rest, k);
    LensAppend(levels[0], Flatten(levels[1..]));
    JoinedDigits(Lens(levels[0]), rest, a, b, cell);
    LiteralInside(levels, init, a, b, offset);
    assert path + (a + b) == path + a + b;
  }

  lemma LiteralInside(levels: seq<seq<Subrange>>, init: Option<Init>, a: seq<int>, b: seq<int>, offset: nat)
    requires levels != [] && |a| == |levels[0]| && Cell(Lens(levels[0]), a) == offset
    ensures LiteralAt(levels, init, a + b) == LiteralAt(levels[1..], ElementAt(init, offset), b)
  {
    assert (a + b)[..|levels[0]|] == a && (a + b)[|levels[0]|..] == b;
  }

  ghost predicate Covers(ws: seq<Write>, levels: seq<seq<Subrange>>, path: seq<int>, init: Option<Init>, start: nat) {
    forall k :: 0 <= k < |ws| ==> ws[k] == CellWrite(levels, path, init, start + k)
  }

  lemma JoinCovers(first: seq<Write>, later: seq<Write>, levels: seq<seq<Subrange>>, path: seq<int>, init: Option<Init>,
                   start: nat, middle: nat)
    requires Covers(first, levels, path, init, start)
    requires Covers(later, levels, path, init, middle) && middle == start + |first|
    ensures Covers(first + later, levels, path, init, start)
  {
    forall k | 0 <= k < |first + later| ensures (first + later)[k] == CellWrite(levels, path, init, start + k) {
      if k >= |first| { assert later[k - |first|] == CellWrite(levels, path, init, middle + (k - |first|)); }
    }
  }

  // The writes of element `offset` are those of its cells.
  lemma {:induction false} OneElement(levels: seq<seq<Subrange>>, path: seq<int>, init: Option<Init>, offset: nat,
      start: nat)
    requires levels != [] && offset < Count(Lens(levels[0]))
    requires start == offset * Count(Storage(levels[1..]))
    ensures var ws := Writes(levels[1..], path + Digits(Lens(levels[0]), offset), ElementAt(init, offset));
      |ws| == Count(Storage(levels[1..])) && Covers(ws, levels, path, init, start)
    decreases |levels|, 0, 0
  {
    var a, element := Digits(Lens(levels[0]), offset), ElementAt(init, offset);
    var ws := Writes(levels[1..], path + a, element);
    WritesCover(levels[1..], path + a, element);
    DigitsAddress(Lens(levels[0]), offset);
    forall k | 0 <= k < |ws| ensures ws[k] == CellWrite(levels, path, init, start + k) {
      assert ws[k] == CellWrite(levels[1..], path + a, element, 0 + k);
      ElementCell(levels, path, init, a, offset, k, start + k);
    }
  }

  // Element `offset` of n starts at cell `start`, with `count` cells from there on.
  predicate Stands(n: int, offset: int, inner: int, start: int, count: int) {
    0 <= offset <= n && start == offset * inner && count == (n - offset) * inner
  }

  lemma NextStands(n: int, offset: int, inner: int, start: int, count: int)
    requires Stands(n, offset, inner, start, count) && inner >= 0
    ensures start >= 0 && count >= 0
    ensures offset == n ==> count == 0
    ensures offset < n ==> count >= inner && Stands(n, offset + 1, inner, start + inner, count - inner)
  {
    Multiple(offset, inner);
    Multiple(n - offset, inner);
    if offset < n {
      Multiple(n - offset - 1, inner);
    }
  }

  lemma Multiple(k: int, inner: int)
    requires k >= 0 && inner >= 0
    ensures k * inner >= 0 && (k + 1) * inner == k * inner + inner
  {
  }

  lemma WritesFromUnfold(levels: seq<seq<Subrange>>, path: seq<int>, init: Option<Init>, offset: nat)
    requires levels != []
    ensures WritesFrom(levels, path, init, offset) ==
      if offset >= Count(Lens(levels[0])) then []
      else Writes(levels[1..], path + Digits(Lens(levels[0]), offset), ElementAt(init, offset)) +
           WritesFrom(levels, path, init, offset + 1)
  {
  }

  lemma {:induction false} WritesFromCover(levels: seq<seq<Subrange>>, path: seq<int>, init: Option<Init>, offset: nat,
                                          start: nat, count: nat)
    requires levels != [] && Stands(Count(Lens(levels[0])), offset, Count(Storage(levels[1..])), start, count)
    ensures |WritesFrom(levels, path, init, offset)| == count
    ensures Covers(WritesFrom(levels, path, init, offset), levels, path, init, start)
    decreases |levels|, 1, Count(Lens(levels[0])) - offset
  {
    var n, inner := Count(Lens(levels[0])), Count(Storage(levels[1..]));
    WritesFromUnfold(levels, path, init, offset);
    NextStands(n, offset, inner, start, count);
    if offset < n {
      OneElement(levels, path, init, offset, start);
      var first := Writes(levels[1..], path + Digits(Lens(levels[0]), offset), ElementAt(init, offset));
      WritesFromCover(levels, path, init, offset + 1, start + inner, count - inner);
      JoinCovers(first, WritesFrom(levels, path, init, offset + 1), levels, path, init, start, start + inner);
    }
  }

  lemma {:induction false} WritesCover(levels: seq<seq<Subrange>>, path: seq<int>, init: Option<Init>)
    ensures var ws := Writes(levels, path, init);
      |ws| == Count(Storage(levels)) && Covers(ws, levels, path, init, 0)
    decreases |levels|, 2, 0
  {
    if levels == [] {
      assert Storage(levels) == [] && path + [] == path;
    } else {
      StorageSplits(levels);
      WritesFromCover(levels, path, init, 0, 0, Count(Storage(levels)));
    }
  }

  // The initialiser of a variable writes cell 0, 1, 2, ... of its declared
  // storage, each once and in order, each with the literal of that cell.
  lemma InitializerCoversStorage(table: Table, rank: map<string, nat>, spec: Spec, initial: Option<Init>)
    requires WellFounded(table, rank)
    ensures var levels := Levels(table, rank, spec);
      var ws := Writes(levels, [], initial);
      && |ws| == Count(Storage(levels))
      && forall k :: 0 <= k < |ws| ==>
           && InBounds(Storage(levels), ws[k].path)
           && Cell(Storage(levels), ws[k].path) == k
           && ws[k].init == LiteralAt(levels, initial, ws[k].path)
  {
    var levels := Levels(table, rank, spec);
    var ws := Writes(levels, [], initial);
    WritesCover(levels, [], initial);
    forall k | 0 <= k < |ws|
      ensures InBounds(Storage(levels), ws[k].path) && Cell(Storage(levels), ws[k].path) == k
      ensures ws[k].init == LiteralAt(levels, initial, ws[k].path)
    {
      assert ws[k] == CellWrite(levels, [], initial, 0 + k);
      assert [] + Digits(Storage(levels), k) == Digits(Storage(levels), k);
      DigitsAddress(Storage(levels), k);
    }
  }

  // ----- index expressions -----

  // Indices minus the low bounds of their ranges, up to the shorter list.
  function LowRelative(ranges: seq<Subrange>, indices: seq<int>): seq<int> {
    if ranges == [] || indices == [] then []
    else [indices[0] - ranges[0].low] + LowRelative(ranges[1..], indices[1..])
  }

  function OneRelative(indices: seq<int>): seq<int> {
    if indices == [] then [] else [indices[0] - 1] + OneRelative(indices[1..])
  }

  // Subscripts emitted for indices: each minus the low bound of its range;
  // those beyond the last array level minus one.
  function Subscripts(levels: seq<seq<Subrange>>, indices: seq<int>): seq<int>
    decreases |levels|
  {
    if indices == [] then []
    else if levels == [] then OneRelative(indices)
    else
      var n := if |levels[0]| <= |indices| then |levels[0]| else |indices|;
      LowRelative(levels[0], indices) + Subscripts(levels[1..], indices[n..])
  }

  function AfterLevel(ranges: seq<Subrange>, indices: seq<int>): seq<int> {
    indices[if |ranges| <= |indices| then |ranges| else |indices|..]
  }

  lemma NextLevel(ranges: seq<Subrange>, inner: seq<seq<Subrange>>, indices: seq<int>)
    ensures Subscripts([ranges] + inner, indices) ==
            LowRelative(ranges, indices) + Subscripts(inner, AfterLevel(ranges, indices))
  {
    assert ([ranges] + inner)[1..] == inner;
    if indices == [] { assert indices[0..] == []; }
  }

  lemma Regroup(a: seq<int>, b: seq<int>, c: seq<int>)
    ensures a + (b + c) == (a + b) + c
  {
  }

  lemma LevelDone(out: seq<int>, ranges: seq<Subrange>, inner: seq<seq<Subrange>>, rest: seq<int>, whole: seq<int>)
    requires out + Subscripts([ranges] + inner, rest) == whole
    ensures (out + LowRelative(ranges, rest)) + Subscripts(inner, AfterLevel(ranges, rest)) == whole
  {
    NextLevel(ranges, inner, rest);
    Regroup(out, LowRelative(ranges, rest), Subscripts(inner, AfterLevel(ranges, rest)));
  }

  method AppendIndices(table: Table, ghost rank: map<string, nat>, spec: Spec,
      indices: seq<int>) returns (out: seq<int>)
    requires WellFounded(table, rank)
    ensures out == Subscripts(Levels(table, rank, spec), indices)
  {
    out := [];
    var current := spec;
    var rest := indices;
    ghost var whole := Subscripts(Levels(table, rank, spec), indices);
    while rest != []
      invariant out + Subscripts(Levels(table, rank, current), rest) == whole
      decreases NameRank(table, rank, current), current
    {
      ResolveDescends(table, rank, current, {});
      var resolved := Resolve(table, current);
      var subscripts;
      if resolved.Array? {
        LevelDone(out, resolved.ranges, Levels(table, rank, resolved.element), rest, whole);
        subscripts, rest := AppendLevel(resolved.ranges, rest);
        out := out + subscripts;
        current := resolved.element;
      } else {
        subscripts := AppendExcess(rest);
        out := out + subscripts;
        return;
      }
    }
  }

  lemma NextLow(ranges: seq<Subrange>, r: nat, rest: seq<int>)
    requires r < |ranges| && rest != []
    ensures LowRelative(ranges[r..], rest) == [rest[0] - ranges[r].low] + LowRelative(ranges[r + 1..], rest[1..])
  {
    assert ranges[r..][1..] == ranges[r + 1..];
  }

  lemma Joined<T>(a: seq<T>, b: seq<T>, c: seq<T>)
    ensures (a + b) + c == a + (b + c)
  {
  }

  lemma RangeDone(out: seq<int>, ranges: seq<Subrange>, r: nat, rest: seq<int>, whole: seq<int>)
    requires r < |ranges| && rest != [] && out + LowRelative(ranges[r..], rest) == whole
    ensures (out + [rest[0] - ranges[r].low]) + LowRelative(ranges[r + 1..], rest[1..]) == whole
  {
    hide LowRelative;
    NextLow(ranges, r, rest);
    Joined(out, [rest[0] - ranges[r].low], LowRelative(ranges[r + 1..], rest[1..]));
  }

  // The loop over the ranges of one level; it stops when the indices run out.
  method AppendLevel(ranges: seq<Subrange>, indices: seq<int>) returns (out: seq<int>, rest: seq<int>)
    ensures out == LowRelative(ranges, indices)
    ensures rest == AfterLevel(ranges, indices)
  {
    out := [];
    rest := indices;
    ghost var whole := LowRelative(ranges, indices);
    assert ranges[0..] == ranges;
    for r := 0 to |ranges|
      invariant r <= |indices| && rest == indices[r..]
      invariant out + LowRelative(ranges[r..], rest) == whole
    {
      if rest == [] { return; }
      RangeDone(out, ranges, r, rest, whole);
      out := out + [rest[0] - ranges[r].low];
      rest := rest[1..];
    }
  }

  method AppendExcess(indices: seq<int>) returns (out: seq<int>)
    ensures out == OneRelative(indices)
  {
    out := [];
    for k := 0 to |indices|
      invariant out + OneRelative(indices[k..]) == OneRelative(indices)
    {
      assert indices[k..][1..] == indices[k + 1..];
      out := out + [indices[k] - 1];
    }
  }

  lemma {:induction false} LowRelativeAt(ranges: seq<Subrange>, indices: seq<int>)
    requires |ranges| <= |indices|
    ensures |LowRelative(ranges, indices)| == |ranges|
    ensures forall k :: 0 <= k < |ranges| ==> LowRelative(ranges, indices)[k] == indices[k] - ranges[k].low
  {
    if ranges == [] {
    } else {
      LowRelativeAt(ranges[1..], indices[1..]);
    }
  }

  // Indices within the declared ranges, one for each range.
  predicate InRanges(ranges: seq<Subrange>, indices: seq<int>) {
    |indices| == |ranges| && forall k :: 0 <= k < |ranges| ==> ranges[k].low <= indices[k] <= ranges[k].high
  }

  lemma {:induction false} FullSubscripts(levels: seq<seq<Subrange>>, indices: seq<int>)
    requires InRanges(Flatten(levels), indices)
    ensures |Subscripts(levels, indices)| == |indices|
    ensures forall k :: 0 <= k < |indices| ==> Subscripts(levels, indices)[k] == indices[k] - Flatten(levels)[k].low
    decreases |levels|
  {
    if indices != [] && levels != [] {
      var n := |levels[0]|;
      assert InRanges(Flatten(levels[1..]), indices[n..]) by {
        forall k | 0 <= k < |Flatten(levels[1..])|
          ensures Flatten(levels[1..])[k].low <= indices[n..][k] <= Flatten(levels[1..])[k].high
        {
          assert Flatten(levels)[n + k] == Flatten(levels[1..])[k];
        }
      }
      FullSubscripts(levels[1..], indices[n..]);
      LowRelativeAt(levels[0], indices);
    }
  }

  // A fully indexed, in-range reference lands in bounds, on the cell that the
  // initialiser set from the literal at that position.
  lemma ReferenceReadsItsLiteral(table: Table, rank: map<string, nat>, spec: Spec, initial: Option<Init>,
      indices: seq<int>)
    requires WellFounded(table, rank)
    requires InRanges(Flatten(Levels(table, rank, spec)), indices)
    ensures var levels := Levels(table, rank, spec);
      var lens := Storage(levels);
      var subscripts := Subscripts(levels, indices);
      && InBounds(lens, subscripts)
      && 0 <= Cell(lens, subscripts) < |Writes(levels, [], initial)|
      && Writes(levels, [], initial)[Cell(lens, subscripts)]
          == Write(subscripts, LiteralAt(levels, initial, subscripts))
  {
    var levels := Levels(table, rank, spec);
    var lens := Storage(levels);
    var subscripts := Subscripts(levels, indices);
    FullSubscripts(levels, indices);
    CellInBounds(lens, subscripts);
    InitializerCoversStorage(table, rank, spec, initial);
    var w := Writes(levels, [], initial)[Cell(lens, subscripts)];
    CellsAreDistinct(lens, w.path, subscripts);
  }

  // Different in-range index tuples refer to different cells.
  lemma ReferencesAreDistinct(table: Table, rank: map<string, nat>, spec: Spec, a: seq<int>, b: seq<int>)
    requires WellFounded(table, rank)
    requires InRanges(Flatten(Levels(table, rank, spec)), a) && InRanges(Flatten(Levels(table, rank, spec)), b)
        && a != b
    ensures var levels := Levels(table, rank, spec);
      var lens := Storage(levels);
      && |Subscripts(levels, a)| == |Subscripts(levels, b)| == |lens|
      && Cell(lens, Subscripts(levels, a)) != Cell(lens, Subscripts(levels, b))
  {
    var levels := Levels(table, rank, spec);
    var lens := Storage(levels);
    FullSubscripts(levels, a);
    FullSubscripts(levels, b);
    var k :| 0 <= k < |a| && a[k] != b[k];
    assert Subscripts(levels, a)[k] != Subscripts(levels, b)[k];
    if Cell(lens, Subscripts(levels, a)) == Cell(lens, Subscripts(levels, b)) {
      CellsAreDistinct(lens, Subscripts(levels, a), Subscripts(levels, b));
    }
  }
}
