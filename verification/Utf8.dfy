/**
 * The emitted UTF-8 helpers (RFC 3629, section 3): conversion between wide
 * strings and bytes, and the string functions that count in code points while
 * they work on bytes. Masks and shifts on bytes are written as ranges,
 * quotients and remainders.
 */
module Utf8 {
  import opened Wrappers

  // The bytes of a C string, before the zero that terminates it.
  type Byte = x: int | 0 < x < 256 witness 1
  type CString = seq<Byte>
  type CodePoint = x: int | 0 < x <= 0x10_FFFF witness 1

  const STRING_CAP: nat := 256

  // Reading a C string: the byte, or the terminator.
  function At(s: CString, i: nat): int {
    if i < |s| then s[i] else 0
  }

  predicate IsContinuation(b: int) { 0x80 <= b < 0xC0 }   // (b & 0xC0) == 0x80
  predicate LeadsTwo(b: int) { 0xC0 <= b < 0xE0 }         // (b & 0xE0) == 0xC0
  predicate LeadsThree(b: int) { 0xE0 <= b < 0xF0 }       // (b & 0xF0) == 0xE0
  predicate LeadsFour(b: int) { 0xF0 <= b < 0xF8 }        // (b & 0xF8) == 0xF0

  // The masks, on the bit patterns themselves.
  lemma MasksAreRanges(b: bv8)
    ensures b & 0x80 == 0 <==> b < 0x80
    ensures b & 0xC0 == 0x80 <==> 0x80 <= b < 0xC0
    ensures b & 0xE0 == 0xC0 <==> 0xC0 <= b < 0xE0
    ensures b & 0xF0 == 0xE0 <==> 0xE0 <= b < 0xF0
    ensures b & 0xF8 == 0xF0 <==> 0xF0 <= b < 0xF8
  {
  }

  // ----- one code point -----

  function Encode(cp: CodePoint): (bytes: CString)
    ensures 1 <= |bytes| <= 4
  {
    if cp <= 0x7F then [cp]
    else if cp <= 0x7FF then [Head(0xC0, cp / 64), Tail(cp)]
    else if cp <= 0xFFFF then [Head(0xE0, cp / 4096), Tail(cp / 64), Tail(cp)]
    else [Head(0xF0, cp / 262144), Tail(cp / 4096), Tail(cp / 64), Tail(cp)]
  }

  function Head(mark: Byte, bits: nat): Byte
    requires mark + bits < 256
  {
    mark + bits
  }

  function Tail(bits: nat): Byte {
    0x80 + bits % 64
  }

  // How many bytes the character starting with c takes in any string,
  // well-formed or not; c1, c2 and c3 follow it.
  function WidthOf(c: int, c1: int, c2: int, c3: int): nat {
    if c == 0 then 0
    else if c < 0x80 then 1
    else if LeadsTwo(c) && IsContinuation(c1) then 2
    else if LeadsThree(c) && IsContinuation(c1) && IsContinuation(c2) then 3
    else if LeadsFour(c) && IsContinuation(c1) && IsContinuation(c2) && IsContinuation(c3) then 4
    else 1
  }

  // The code unit stored for it by `rbcpp_wstrassign_utf8`.
  function UnitOf(c: int, c1: int, c2: int, c3: int): int {
    match WidthOf(c, c1, c2, c3)
    case 2 => c % 32 * 64 + c1 % 64
    case 3 => c % 16 * 4096 + c1 % 64 * 64 + c2 % 64
    case 4 => c % 8 * 262144 + c1 % 64 * 4096 + c2 % 64 * 64 + c3 % 64
    case _ => c
  }

  function Width(s: CString, i: nat): (w: nat)
    ensures w <= 4 && (i < |s| ==> 1 <= w) && i + w <= if i < |s| then |s| else i
  {
    WidthOf(At(s, i), At(s, i + 1), At(s, i + 2), At(s, i + 3))
  }

  // `rbcpp_utf8_next`.
  function Next(s: CString, i: nat): (next: nat)
    ensures next <= |s| || next == i
    ensures i < |s| ==> i < next <= |s|
  {
    i + Width(s, i)
  }

  function Decode(s: CString, i: nat): int {
    UnitOf(At(s, i), At(s, i + 1), At(s, i + 2), At(s, i + 3))
  }

  // The six-bit digits of a number, put together again.
  lemma Digits(n: nat)
    ensures n == n / 64 * 64 + n % 64
    ensures n == n / 4096 * 4096 + n / 64 % 64 * 64 + n % 64
    ensures n == n / 262144 * 262144 + n / 4096 % 64 * 4096 + n / 64 % 64 * 64 + n % 64
  {
    var q := n / 64;
    var p := q / 64;
    assert n / 4096 == p && p / 64 == n / 262144;
  }

  // The payloads of the lead bytes, and of the bytes after them.
  lemma Payloads(d: int, r: int)
    requires 0 <= r < 64
    ensures 0x80 <= 0x80 + r < 0xC0 && (0x80 + r) % 64 == r
    ensures 0 <= d < 32 ==> LeadsTwo(0xC0 + d) && (0xC0 + d) % 32 == d
    ensures 0 <= d < 16 ==> LeadsThree(0xE0 + d) && (0xE0 + d) % 16 == d
    ensures 0 <= d < 8 ==> LeadsFour(0xF0 + d) && (0xF0 + d) % 8 == d
  {
  }

  lemma TwoBytes(d: int, r: int, c2: int, c3: int)
    requires 0 <= d < 32 && 0 <= r < 64
    ensures WidthOf(0xC0 + d, 0x80 + r, c2, c3) == 2 && UnitOf(0xC0 + d, 0x80 + r, c2, c3) == d * 64 + r
  {
    Payloads(d, r);
  }

  lemma ThreeBytes(d: int, q: int, r: int, c3: int)
    requires 0 <= d < 16 && 0 <= q < 64 && 0 <= r < 64
    ensures WidthOf(0xE0 + d, 0x80 + q, 0x80 + r, c3) == 3
    ensures UnitOf(0xE0 + d, 0x80 + q, 0x80 + r, c3) == d * 4096 + q * 64 + r
  {
    Payloads(d, q);
    Payloads(d, r);
  }

  lemma FourBytes(d: int, p: int, q: int, r: int)
    requires 0 <= d < 8 && 0 <= p < 64 && 0 <= q < 64 && 0 <= r < 64
    ensures WidthOf(0xF0 + d, 0x80 + p, 0x80 + q, 0x80 + r) == 4
    ensures UnitOf(0xF0 + d, 0x80 + p, 0x80 + q, 0x80 + r) == d * 262144 + p * 4096 + q * 64 + r
  {
    Payloads(d, p);
    Payloads(d, q);
    Payloads(d, r);
  }

  lemma EncodedBytes(cp: CodePoint)
    ensures cp <= 0x7F ==> Encode(cp) == [cp]
    ensures 0x7F < cp <= 0x7FF ==> Encode(cp) == [Head(0xC0, cp / 64), Tail(cp)]
    ensures 0x7FF < cp <= 0xFFFF ==> Encode(cp) == [Head(0xE0, cp / 4096), Tail(cp / 64), Tail(cp)]
    ensures 0xFFFF < cp ==> Encode(cp) == [Head(0xF0, cp / 262144), Tail(cp / 4096), Tail(cp / 64), Tail(cp)]
  {
  }

  lemma UnitOfEncoded(cp: CodePoint, c1: int, c2: int, c3: int)
    requires var e := Encode(cp);
      && (|e| > 1 ==> c1 == e[1]) && (|e| > 2 ==> c2 == e[2]) && (|e| > 3 ==> c3 == e[3])
    ensures WidthOf(Encode(cp)[0], c1, c2, c3) == |Encode(cp)|
    ensures UnitOf(Encode(cp)[0], c1, c2, c3) == cp
  {
    hide Encode;
    EncodedBytes(cp);
    if cp > 0x7F {
      hide WidthOf, UnitOf;
      Digits(cp);
      if cp <= 0x7FF {
        TwoBytes(cp / 64, cp % 64, c2, c3);
      } else if cp <= 0xFFFF {
        ThreeBytes(cp / 4096, cp / 64 % 64, cp % 64, c3);
      } else {
        FourBytes(cp / 262144, cp / 4096 % 64, cp / 64 % 64, cp % 64);
      }
    }
  }

  // Wherever an encoded character stands, it is read back as itself.
  lemma EncodedChar(before: CString, cp: CodePoint, after: CString)
    ensures Width(before + (Encode(cp) + after), |before|) == |Encode(cp)|
    ensures Decode(before + (Encode(cp) + after), |before|) == cp
  {
    var e, i := Encode(cp), |before|;
    var s := before + (e + after);
    assert At(s, i) == e[0];
    assert |e| > 1 ==> At(s, i + 1) == e[1];
    assert |e| > 2 ==> At(s, i + 2) == e[2];
    assert |e| > 3 ==> At(s, i + 3) == e[3];
    UnitOfEncoded(cp, At(s, i + 1), At(s, i + 2), At(s, i + 3));
  }

  // ----- strings of code points -----

  function Utf8(cps: seq<CodePoint>): (s: CString)
    ensures |s| >= |cps|
  {
    if cps == [] then [] else Encode(cps[0]) + Utf8(cps[1..])
  }

  lemma {:induction false} Utf8Append(a: seq<CodePoint>, b: seq<CodePoint>)
    ensures Utf8(a + b) == Utf8(a) + Utf8(b)
  {
    if a == [] {
      assert a + b == b;
    } else {
      assert (a + b)[1..] == a[1..] + b;
      Utf8Append(a[1..], b);
    }
  }

  lemma Utf8Push(cps: seq<CodePoint>, cp: CodePoint)
    ensures Utf8(cps + [cp]) == Utf8(cps) + Encode(cp)
  {
    Utf8Append(cps, [cp]);
    assert [cp][1..] == [];
  }

  // In `before + Utf8(cps)`, the first character of cps and what follows it.
  lemma FirstChar(before: CString, cps: seq<CodePoint>)
    requires cps != []
    ensures var s := before + Utf8(cps);
      && |s| > |before|
      && Next(s, |before|) == |before + Encode(cps[0])|
      && Decode(s, |before|) == cps[0]
      && s == (before + Encode(cps[0])) + Utf8(cps[1..])
  {
    var first, rest := Encode(cps[0]), Utf8(cps[1..]);
    EncodedChar(before, cps[0], rest);
    Regroup(before, first, rest);
  }

  lemma Regroup<T>(a: seq<T>, b: seq<T>, c: seq<T>)
    ensures a + (b + c) == (a + b) + c
  {
  }

  // Where a prefix of the code points ends, and what lies on both sides.
  lemma SplitAt(cps: seq<CodePoint>, k: nat)
    requires k <= |cps|
    ensures |Utf8(cps[..k])| <= |Utf8(cps)|
    ensures Utf8(cps)[..|Utf8(cps[..k])|] == Utf8(cps[..k])
    ensures Utf8(cps)[|Utf8(cps[..k])|..] == Utf8(cps[k..])
  {
    hide Utf8;
    Utf8Append(cps[..k], cps[k..]);
    assert cps[..k] + cps[k..] == cps;
  }

  // ----- `rbcpp_wstrassign_utf8` and `rbcpp_wstr_to_utf8` -----

  // The code units stored, at most `room` of them.
  function Decoded(s: CString, i: nat, room: nat): seq<int>
    decreases |s| - i
  {
    if i >= |s| || room == 0 then [] else [Decode(s, i)] + Decoded(s, Next(s, i), room - 1)
  }

  method WstrAssignUtf8(cap: nat, src: CString) returns (dest: seq<int>)
    ensures dest == Decoded(src, 0, if cap == 0 then 0 else cap - 1)
  {
    hide Next, Decode;
    dest := [];
    if cap == 0 { return; }
    var p := 0;
    while At(src, p) != 0 && |dest| + 1 < cap
      invariant p <= |src| && |dest| < cap
      invariant dest + Decoded(src, p, cap - 1 - |dest|) == Decoded(src, 0, cap - 1)
      decreases |src| - p
    {
      dest := dest + [Decode(src, p)];
      p := Next(src, p);
    }
  }

  function Shorter(a: int, b: nat): (r: nat)
    ensures r <= b
  {
    if a < 0 then 0 else if a < b then a else b
  }

  lemma {:induction false} DecodedIsPrefix(before: CString, cps: seq<CodePoint>, room: nat)
    ensures Decoded(before + Utf8(cps), |before|, room) == cps[..Shorter(room, |cps|)]
    decreases |cps|
  {
    hide Encode, Next, Decode;
    if cps != [] && room > 0 {
      FirstChar(before, cps);
      DecodedIsPrefix(before + Encode(cps[0]), cps[1..], room - 1);
      var n := Shorter(room, |cps|);
      assert cps[..n] == [cps[0]] + cps[1..][..n - 1];
    } else {
      assert before + [] == before;
    }
  }

  // How many leading code points the buffer takes: each needs 4 bytes and the
  // terminator to be free before it.
  function Fitting(cps: seq<CodePoint>, pos: nat): (n: nat)
    ensures n <= |cps|
  {
    if cps == [] || pos + 4 >= STRING_CAP then 0
    else 1 + Fitting(cps[1..], pos + |Encode(cps[0])|)
  }

  // The first i code points are written, and the rest will go as planned.
  ghost predicate Written(s: seq<CodePoint>, i: nat, out: CString) {
    i <= |s| && out == Utf8(s[..i]) && i + Fitting(s[i..], |out|) == Fitting(s, 0)
  }

  method WstrToUtf8(s: seq<CodePoint>) returns (out: CString)
    ensures out == Utf8(s[..Fitting(s, 0)]) && |out| < STRING_CAP
  {
    hide Utf8, Encode, Fitting, Written;
    out := [];
    var i := 0;
    NothingWritten(s);
    while i < |s| && |out| + 4 < STRING_CAP
      invariant i <= |s| && |out| < STRING_CAP && Written(s, i, out)
    {
      OneWritten(s, i, out);
      out := out + Encode(s[i]);
      i := i + 1;
    }
    AllWritten(s, i, out);
  }

  lemma NothingWritten(s: seq<CodePoint>)
    ensures Written(s, 0, [])
  {
    assert s[0..] == s && s[..0] == [];
  }

  lemma OneWritten(s: seq<CodePoint>, i: nat, out: CString)
    requires Written(s, i, out) && i < |s| && |out| + 4 < STRING_CAP
    ensures Written(s, i + 1, out + Encode(s[i]))
  {
    hide Utf8, Encode, Fitting;
    FittingStep(s, i, |out|);
    Utf8Grows(s, i);
  }

  lemma AllWritten(s: seq<CodePoint>, i: nat, out: CString)
    requires Written(s, i, out) && (i == |s| || |out| + 4 >= STRING_CAP)
    ensures out == Utf8(s[..Fitting(s, 0)])
  {
    hide Utf8, Encode, Fitting;
    FittingStep(s, i, |out|);
  }

  lemma Utf8Grows(s: seq<CodePoint>, i: nat)
    requires i < |s|
    ensures Utf8(s[..i + 1]) == Utf8(s[..i]) + Encode(s[i])
  {
    assert s[..i + 1] == s[..i] + [s[i]];
    Utf8Push(s[..i], s[i]);
  }

  lemma FittingStep(s: seq<CodePoint>, i: nat, pos: nat)
    requires i <= |s|
    ensures Fitting(s[i..], pos) ==
            if i == |s| || pos + 4 >= STRING_CAP then 0 else 1 + Fitting(s[i + 1..], pos + |Encode(s[i])|)
  {
    if i < |s| { assert s[i..][1..] == s[i + 1..]; }
  }

  // Each code point but the last leaves four free bytes before the terminator.
  predicate Fits(cps: seq<CodePoint>, pos: nat) {
    cps == [] || pos + |Utf8(cps[..|cps| - 1])| + 4 < STRING_CAP
  }

  lemma {:induction false} AllFit(cps: seq<CodePoint>, pos: nat)
    ensures Fitting(cps, pos) == |cps| <==> Fits(cps, pos)
    decreases |cps|
  {
    hide Encode;
    if |cps| == 1 {
      assert cps[..0] == [];
    } else if cps != [] {
      var front := cps[..|cps| - 1];
      assert front[0] == cps[0] && front[1..] == cps[1..][..|cps[1..]| - 1];
      AllFit(cps[1..], pos + |Encode(cps[0])|);
    }
  }

  // Writing a wide string as UTF-8 and reading it back returns it exactly when
  // its characters fit the buffer and the target has room for all of them.
  lemma WideRoundTrip(cps: seq<CodePoint>, cap: nat)
    ensures Decoded(Utf8(cps[..Fitting(cps, 0)]), 0, if cap == 0 then 0 else cap - 1) == cps
            <==> Fits(cps, 0) && (|cps| < cap || cps == [])
  {
    hide Utf8, Fitting, Decoded, Encode;
    var written := cps[..Fitting(cps, 0)];
    AllFit(cps, 0);
    DecodedIsPrefix([], written, if cap == 0 then 0 else cap - 1);
    assert [] + Utf8(written) == Utf8(written);
    if Fitting(cps, 0) == |cps| { assert written == cps; }
  }

  // ----- counting characters -----

  function CharCount(s: CString, i: nat): nat
    decreases |s| - i
  {
    if i >= |s| then 0 else 1 + CharCount(s, Next(s, i))
  }

  // The offset of the character `n` after the one at i, or of the end.
  function OffsetFrom(s: CString, i: nat, n: int): nat
    decreases |s| - i
  {
    if i >= |s| || n <= 0 then i else OffsetFrom(s, Next(s, i), n - 1)
  }

  // Characters that end at or before `bytes`.
  function CharsWithin(s: CString, i: nat, bytes: nat): nat
    decreases |s| - i
  {
    if i >= |s| || i >= bytes || Next(s, i) > bytes then 0 else 1 + CharsWithin(s, Next(s, i), bytes)
  }

  method Utf8Len(s: CString) returns (count: nat)
    ensures count == CharCount(s, 0)
  {
    var i := 0;
    count := 0;
    while At(s, i) != 0
      invariant i <= |s| && count + CharCount(s, i) == CharCount(s, 0)
      decreases |s| - i
    {
      i := Next(s, i);
      count := count + 1;
    }
  }

  method Utf8Offset(s: CString, chars: int) returns (i: nat)
    ensures i == OffsetFrom(s, 0, chars)
  {
    if chars <= 0 { return 0; }
    i := 0;
    var count := 0;
    while At(s, i) != 0 && count < chars
      invariant i <= |s| && count <= chars
      invariant OffsetFrom(s, i, chars - count) == OffsetFrom(s, 0, chars)
      decreases |s| - i
    {
      i := Next(s, i);
      count := count + 1;
    }
  }

  method Utf8LenBytes(s: CString, bytes: nat) returns (count: nat)
    ensures count == CharsWithin(s, 0, bytes)
  {
    var i := 0;
    count := 0;
    while At(s, i) != 0 && i < bytes
      invariant i <= |s| && count + CharsWithin(s, i, bytes) == CharsWithin(s, 0, bytes)
      decreases |s| - i
    {
      var next := Next(s, i);
      if next > bytes { break; }
      i := next;
      count := count + 1;
    }
  }

  // LEN counts code points.
  lemma {:induction false} LenCountsCodePoints(before: CString, cps: seq<CodePoint>)
    ensures CharCount(before + Utf8(cps), |before|) == |cps|
    decreases |cps|
  {
    hide Encode, Next, Decode;
    if cps == [] {
      assert before + [] == before;
    } else {
      FirstChar(before, cps);
      LenCountsCodePoints(before + Encode(cps[0]), cps[1..]);
    }
  }

  lemma {:induction false} OffsetIsPrefix(before: CString, cps: seq<CodePoint>, n: int)
    ensures OffsetFrom(before + Utf8(cps), |before|, n) == |before| + |Utf8(cps[..Shorter(n, |cps|)])|
    decreases |cps|
  {
    hide Encode, Next, Decode;
    if cps == [] || n <= 0 {
      assert cps[..Shorter(n, |cps|)] == [];
    } else {
      FirstChar(before, cps);
      OffsetIsPrefix(before + Encode(cps[0]), cps[1..], n - 1);
      var m := Shorter(n, |cps|);
      assert cps[..m][1..] == cps[1..][..m - 1];
    }
  }

  function Offset(s: CString, n: int): (i: nat)
    ensures i <= |s|
  {
    OffsetInside(s, 0, n);
    OffsetFrom(s, 0, n)
  }

  lemma {:induction false} OffsetInside(s: CString, i: nat, n: int)
    requires i <= |s|
    ensures i <= OffsetFrom(s, i, n) <= |s|
    decreases |s| - i
  {
    if i < |s| && n > 0 { OffsetInside(s, Next(s, i), n - 1); }
  }

  lemma {:induction false} OffsetGrows(s: CString, i: nat, m: int, n: int)
    requires i <= |s| && m <= n
    ensures OffsetFrom(s, i, m) <= OffsetFrom(s, i, n)
    decreases |s| - i
  {
    if i < |s| && m > 0 {
      OffsetGrows(s, Next(s, i), m - 1, n - 1);
    } else {
      OffsetInside(s, i, n);
    }
  }

  lemma OffsetIsLength(cps: seq<CodePoint>, n: int)
    ensures Offset(Utf8(cps), n) == |Utf8(cps[..Shorter(n, |cps|)])|
  {
    hide Utf8, OffsetFrom, Shorter;
    OffsetIsPrefix([], cps, n);
    assert [] + Utf8(cps) == Utf8(cps);
  }

  // The offset splits a well-formed string after min(n, |cps|) code points.
  lemma OffsetSplits(cps: seq<CodePoint>, n: int)
    ensures var s, k := Utf8(cps), Shorter(n, |cps|);
      s[..Offset(s, n)] == Utf8(cps[..k]) && s[Offset(s, n)..] == Utf8(cps[k..])
  {
    hide Utf8, OffsetFrom, Shorter;
    OffsetIsLength(cps, n);
    SplitAt(cps, Shorter(n, |cps|));
  }

  // ----- the string functions on bytes -----

  // `snprintf` into a buffer keeps what fits before the terminator.
  function Truncated(s: CString): CString {
    if |s| < STRING_CAP then s else s[..STRING_CAP - 1]
  }

  function Left(s: CString, len: int): CString {
    if len <= 0 then [] else Truncated(s[..Offset(s, len)])
  }

  function Right(s: CString, len: int): CString {
    if len <= 0 then []
    else
      var total := CharCount(s, 0);
      var skip := if total > len then total - len else 0;
      Truncated(s[Offset(s, skip)..])
  }

  function Mid(s: CString, len: int, pos: int): CString {
    if len <= 0 then []
    else
      var first := if pos <= 1 then 0 else pos - 1;
      OffsetGrows(s, 0, first, first + len);
      Truncated(s[Offset(s, first)..Offset(s, first + len)])
  }

  function Concat(a: CString, b: CString): CString {
    Truncated(a + b)
  }

  function Delete(s: CString, len: int, pos: int): CString {
    var first := if pos <= 1 then 0 else pos - 1;
    Truncated(s[..Offset(s, first)] + s[Offset(s, first + if len <= 0 then 0 else len)..])
  }

  function Insert(s: CString, ins: CString, pos: int): CString {
    var start := Offset(s, if pos <= 0 then 0 else pos);
    Truncated(s[..start] + ins + s[start..])
  }

  function Replace(s: CString, rep: CString, len: int, pos: int): CString {
    Insert(Delete(s, len, pos), rep, pos - 1)
  }

  // ----- the same functions on code points -----

  function LeftOf(c: seq<CodePoint>, len: int): seq<CodePoint> {
    c[..Shorter(len, |c|)]
  }

  function RightOf(c: seq<CodePoint>, len: int): seq<CodePoint> {
    c[|c| - Shorter(len, |c|)..]
  }

  // Positions count from 1; lower ones mean 1.
  function Index(pos: int): nat {
    if pos <= 1 then 0 else pos - 1
  }

  function MidOf(c: seq<CodePoint>, len: int, pos: int): seq<CodePoint> {
    LeftOf(c[Shorter(Index(pos), |c|)..], len)
  }

  // The part of c from position pos + len on.
  function RestOf(c: seq<CodePoint>, len: int, pos: int): seq<CodePoint> {
    var tail := c[Shorter(Index(pos), |c|)..];
    tail[Shorter(len, |tail|)..]
  }

  function DeleteOf(c: seq<CodePoint>, len: int, pos: int): seq<CodePoint> {
    LeftOf(c, Index(pos)) + RestOf(c, len, pos)
  }

  function InsertOf(c: seq<CodePoint>, ins: seq<CodePoint>, pos: int): seq<CodePoint> {
    LeftOf(c, pos) + ins + c[Shorter(pos, |c|)..]
  }

  function ReplaceOf(c: seq<CodePoint>, rep: seq<CodePoint>, len: int, pos: int): seq<CodePoint> {
    LeftOf(c, Index(pos)) + rep + RestOf(c, len, pos)
  }

  lemma ConcatIsConcat(a: seq<CodePoint>, b: seq<CodePoint>)
    requires |Utf8(a + b)| < STRING_CAP
    ensures Concat(Utf8(a), Utf8(b)) == Utf8(a + b)
  {
    Utf8Append(a, b);
    hide Utf8;
  }

  lemma LeftIsLeft(c: seq<CodePoint>, len: int)
    requires |Utf8(LeftOf(c, len))| < STRING_CAP
    ensures Left(Utf8(c), len) == Utf8(LeftOf(c, len))
  {
    OffsetSplits(c, len);
  }

  lemma RightIsRight(c: seq<CodePoint>, len: int)
    requires |Utf8(RightOf(c, len))| < STRING_CAP
    ensures Right(Utf8(c), len) == Utf8(RightOf(c, len))
  {
    if len <= 0 {
      assert RightOf(c, len) == [];
      return;
    }
    hide Utf8, OffsetFrom, CharCount;
    LenCountsCodePoints([], c);
    assert [] + Utf8(c) == Utf8(c);
    OffsetSplits(c, if |c| > len then |c| - len else 0);
  }

  lemma MidIsMid(c: seq<CodePoint>, len: int, pos: int)
    requires |Utf8(MidOf(c, len, pos))| < STRING_CAP
    ensures Mid(Utf8(c), len, pos) == Utf8(MidOf(c, len, pos))
  {
    hide Utf8, OffsetFrom, MidOf, Shorter;
    if len > 0 {
      var i := Index(pos);
      MidIsSlice(c, len, pos);
      OffsetIsLength(c, i);
      OffsetIsLength(c, i + len);
      Between(c, Shorter(i, |c|), Shorter(i + len, |c|));
    } else {
      NoMid(c, len, pos);
    }
  }

  lemma NoMid(c: seq<CodePoint>, len: int, pos: int)
    requires len <= 0
    ensures Utf8(MidOf(c, len, pos)) == []
  {
  }

  lemma MidIsSlice(c: seq<CodePoint>, len: int, pos: int)
    requires len > 0
    ensures var m, n := Shorter(Index(pos), |c|), Shorter(Index(pos) + len, |c|);
      m <= n && MidOf(c, len, pos) == c[m..n]
  {
  }

  lemma Between(c: seq<CodePoint>, m: nat, n: nat)
    requires m <= n <= |c|
    ensures |Utf8(c[..m])| <= |Utf8(c[..n])| <= |Utf8(c)|
    ensures Utf8(c)[|Utf8(c[..m])|..|Utf8(c[..n])|] == Utf8(c[m..n])
  {
    hide Utf8;
    Utf8Append(c[..m], c[m..n]);
    assert c[..m] + c[m..n] == c[..n];
    Utf8Append(c[..n], c[n..]);
    assert c[..n] + c[n..] == c;
  }

  lemma RestIsTail(c: seq<CodePoint>, len: int, pos: int)
    ensures RestOf(c, len, pos) == c[Shorter(Index(pos) + if len <= 0 then 0 else len, |c|)..]
  {
  }

  lemma DeleteIsDelete(c: seq<CodePoint>, len: int, pos: int)
    requires |Utf8(DeleteOf(c, len, pos))| < STRING_CAP
    ensures Delete(Utf8(c), len, pos) == Utf8(DeleteOf(c, len, pos))
  {
    var i, n := Index(pos), if len <= 0 then 0 else len;
    OffsetSplits(c, i);
    OffsetSplits(c, i + n);
    RestIsTail(c, len, pos);
    var front, rest := LeftOf(c, i), RestOf(c, len, pos);
    Utf8Append(front, rest);
    hide Utf8, OffsetFrom, RestOf;
  }

  lemma InsertIsInsert(c: seq<CodePoint>, ins: seq<CodePoint>, pos: int)
    requires |Utf8(InsertOf(c, ins, pos))| < STRING_CAP
    ensures Insert(Utf8(c), Utf8(ins), pos) == Utf8(InsertOf(c, ins, pos))
  {
    OffsetSplits(c, if pos <= 0 then 0 else pos);
    var k := Shorter(pos, |c|);
    Utf8Append(c[..k] + ins, c[k..]);
    Utf8Append(c[..k], ins);
  }

  // Where the deleted part was.
  lemma DeletedSplits(c: seq<CodePoint>, len: int, pos: int)
    ensures var d := DeleteOf(c, len, pos);
      && LeftOf(d, pos - 1) == LeftOf(c, Index(pos))
      && d[Shorter(pos - 1, |d|)..] == RestOf(c, len, pos)
  {
    var front, rest := LeftOf(c, Index(pos)), RestOf(c, len, pos);
    if Index(pos) > |c| {
      assert rest == [];
    }
  }

  lemma ReplaceIsReplace(c: seq<CodePoint>, rep: seq<CodePoint>, len: int, pos: int)
    requires |Utf8(ReplaceOf(c, rep, len, pos))| < STRING_CAP
    ensures Replace(Utf8(c), Utf8(rep), len, pos) == Utf8(ReplaceOf(c, rep, len, pos))
  {
    var front, rest, d := LeftOf(c, Index(pos)), RestOf(c, len, pos), DeleteOf(c, len, pos);
    DeletedSplits(c, len, pos);
    Utf8Append(front, rest);
    Utf8Append(front + rep, rest);
    Utf8Append(front, rep);
    hide Utf8, RestOf, OffsetFrom;
    DeleteIsDelete(c, len, pos);
    InsertIsInsert(d, rep, pos - 1);
  }

  // ----- FIND -----

  predicate OccursAt<T(==)>(s: seq<T>, needle: seq<T>, i: nat) {
    i + |needle| <= |s| && s[i..i + |needle|] == needle
  }

  // The first occurrence, as `strstr` finds it.
  function FirstOccurrence<T(==)>(s: seq<T>, needle: seq<T>, i: nat): (r: Option<nat>)
    requires i <= |s|
    ensures r.Some? ==> i <= r.value && OccursAt(s, needle, r.value)
    ensures r.Some? ==> forall k: nat :: i <= k < r.value ==> !OccursAt(s, needle, k)
    ensures r.None? ==> forall k: nat :: i <= k ==> !OccursAt(s, needle, k)
    decreases |s| - i
  {
    if OccursAt(s, needle, i) then Some(i)
    else if i == |s| then None
    else FirstOccurrence(s, needle, i + 1)
  }

  function Find(s: CString, needle: CString): int {
    var p := FirstOccurrence(s, needle, 0);
    if p.Some? then CharsWithin(s, 0, p.value) + 1 else 0
  }

  function FindOf(h: seq<CodePoint>, needle: seq<CodePoint>): int {
    var p := FirstOccurrence(h, needle, 0);
    if p.Some? then p.value + 1 else 0
  }

  // `rbcpp_find`: the characters before the bytes that `strstr` finds.
  method FindPosition(s: CString, needle: CString) returns (position: int)
    ensures position == Find(s, needle)
  {
    var p := FirstOccurrence(s, needle, 0);
    if p.None? { return 0; }
    var before := Utf8LenBytes(s, p.value);
    return before + 1;
  }

  // Where code point k starts.
  function Start(h: seq<CodePoint>, k: nat): nat
    requires k <= |h|
  {
    |Utf8(h[..k])|
  }

  lemma EncodeShape(cp: CodePoint)
    ensures !IsContinuation(Encode(cp)[0])
    ensures forall j :: 1 <= j < |Encode(cp)| ==> IsContinuation(Encode(cp)[j])
  {
  }

  // A byte that is not a continuation byte starts a code point.
  lemma {:induction false} Synchronises(h: seq<CodePoint>, i: nat) returns (k: nat)
    requires i < |Utf8(h)| && !IsContinuation(Utf8(h)[i])
    ensures k < |h| && Start(h, k) == i
  {
    EncodeShape(h[0]);
    if i == 0 {
      k := 0;
      assert h[..0] == [];
    } else {
      var e := Encode(h[0]);
      assert i >= |e|;
      var j := Synchronises(h[1..], i - |e|);
      k := j + 1;
      assert h[..k][1..] == h[1..][..j];
    }
  }

  lemma EncodeDecides(a: CodePoint, b: CodePoint, x: CString, y: CString)
    requires Encode(a) + x <= Encode(b) + y
    ensures a == b && x <= y
  {
    EncodedChar([], a, x);
    EncodedChar([], b, y);
    var s: CString := Encode(a) + x;
    var t: CString := Encode(b) + y;
    assert [] + Encode(a) + x == s && [] + Encode(b) + y == t;
    assert s[0] == t[0];
    SameWidth(a, b);
    assert Encode(a) == s[..|Encode(a)|] == t[..|Encode(b)|] == Encode(b);
    EncodedChar([], a, []);
    EncodedChar([], b, []);
    assert x == s[|Encode(a)|..] && y == t[|Encode(b)|..];
  }

  lemma SameWidth(a: CodePoint, b: CodePoint)
    requires Encode(a)[0] == Encode(b)[0]
    ensures |Encode(a)| == |Encode(b)|
  {
  }

  // No encoded string is a prefix of another unless its code points are.
  lemma {:induction false} PrefixDecides(a: seq<CodePoint>, b: seq<CodePoint>)
    requires Utf8(a) <= Utf8(b)
    ensures a <= b
  {
    if a == [] {
    } else {
      assert b != [];
      EncodeDecides(a[0], b[0], Utf8(a[1..]), Utf8(b[1..]));
      PrefixDecides(a[1..], b[1..]);
      assert a == [a[0]] + a[1..] && b == [b[0]] + b[1..];
    }
  }

  lemma StartsGrow(h: seq<CodePoint>, j: nat, k: nat)
    requires j < k <= |h|
    ensures Start(h, j) < Start(h, k)
  {
    Utf8Append(h[..j], h[j..k]);
    assert h[..j] + h[j..k] == h[..k];
  }

  // One well-formed string starts with another as its code points do.
  lemma PrefixAlike(tail: seq<CodePoint>, needle: seq<CodePoint>)
    ensures needle <= tail <==> Utf8(needle) <= Utf8(tail)
  {
    if needle <= tail {
      assert tail == needle + tail[|needle|..];
      Utf8Append(needle, tail[|needle|..]);
    }
    if Utf8(needle) <= Utf8(tail) { PrefixDecides(needle, tail); }
  }

  lemma OccursAtTail<T>(s: seq<T>, needle: seq<T>, i: nat)
    requires i <= |s|
    ensures OccursAt(s, needle, i) <==> needle <= s[i..]
  {
  }

  // Occurrences of code points and of their bytes correspond.
  lemma OccursAlike(h: seq<CodePoint>, needle: seq<CodePoint>, k: nat)
    requires k <= |h|
    ensures OccursAt(h, needle, k) <==> OccursAt(Utf8(h), Utf8(needle), Start(h, k))
  {
    SplitAt(h, k);
    PrefixAlike(h[k..], needle);
    OccursAtTail(h, needle, k);
    OccursAtTail(Utf8(h), Utf8(needle), Start(h, k));
    hide Utf8, OccursAt;
  }

  lemma {:induction false} CharsUpTo(before: CString, cps: seq<CodePoint>, k: nat)
    requires k <= |cps|
    ensures CharsWithin(before + Utf8(cps), |before|, |before| + Start(cps, k)) == k
    decreases |cps|
  {
    hide Encode, Next, Decode;
    if k == 0 {
      assert cps[..0] == [];
    } else {
      FirstChar(before, cps);
      assert cps[..k][1..] == cps[1..][..k - 1];
      CharsUpTo(before + Encode(cps[0]), cps[1..], k - 1);
    }
  }

  lemma NeedleHead(needle: seq<CodePoint>)
    requires needle != []
    ensures Utf8(needle) != [] && !IsContinuation(Utf8(needle)[0])
  {
    EncodeShape(needle[0]);
  }

  // A byte-level match of a well-formed string never starts inside a character.
  lemma MatchIsAligned(h: seq<CodePoint>, needle: seq<CodePoint>, i: nat) returns (k: nat)
    requires needle != [] && OccursAt(Utf8(h), Utf8(needle), i)
    ensures k < |h| && Start(h, k) == i && OccursAt(h, needle, k)
  {
    NeedleHead(needle);
    hide Utf8;
    assert Utf8(h)[i] == Utf8(needle)[0];
    k := Synchronises(h, i);
    OccursAlike(h, needle, k);
  }

  lemma FirstIsFirst(h: seq<CodePoint>, needle: seq<CodePoint>)
    requires needle != []
    ensures var p, q := FirstOccurrence(Utf8(h), Utf8(needle), 0), FirstOccurrence(h, needle, 0);
      p.Some? == q.Some? && (q.Some? ==> q.value <= |h| && p.value == Start(h, q.value))
  {
    hide Utf8, FirstOccurrence, Start;
    var p, q := FirstOccurrence(Utf8(h), Utf8(needle), 0), FirstOccurrence(h, needle, 0);
    if q.Some? {
      OccursAlike(h, needle, q.value);
      assert p.Some?;
    }
    if p.Some? {
      var k := MatchIsAligned(h, needle, p.value);
      hide OccursAt;
      assert q.Some? && q.value <= k;
      if q.value < k { StartsGrow(h, q.value, k); }
    }
  }

  lemma FindEmpty(h: seq<CodePoint>)
    ensures Find(Utf8(h), []) == 1 && FindOf(h, []) == 1
  {
    hide Utf8, Encode;
    assert OccursAt(Utf8(h), [], 0) && OccursAt(h, [], 0);
  }

  // FIND on bytes is FIND on code points.
  lemma FindIsFind(h: seq<CodePoint>, needle: seq<CodePoint>)
    ensures Find(Utf8(h), Utf8(needle)) == FindOf(h, needle)
  {
    if needle == [] {
      FindEmpty(h);
    } else {
      hide Utf8, FirstOccurrence, CharsWithin, Start, OccursAt;
      FirstIsFirst(h, needle);
      var q := FirstOccurrence(h, needle, 0);
      if q.Some? {
        CharsUpTo([], h, q.value);
        assert [] + Utf8(h) == Utf8(h);
      }
    }
  }
}
