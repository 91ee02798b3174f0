/**
 * The emitted text of a block, line by line, and the statements that C reads
 * from the lines.
 */
module CLines {
  import opened Wrappers
  import opened CCode

  // E is how a line holds an expression: as a tree or as text.
  datatype Line<E> =
    | LAssign(field: string, value: E)
    | LIf(test: E) | LElseIf(test: E) | LElse
    | LWhile(test: E) | LDo | LDoEnd(test: E)
    | LFor(field: string, first: E, test: E, step: E)
    | LDecl(name: string, value: E)
    | LOpen | LClose
    | LComment | LBreak | LReturn | LGoto(target: string) | LLabel(target: string) | LOnceEnd

  type CLine = Line<CExpr>

  // The text of a block, indentation aside.
  function Lines(cs: seq<CStmt>): seq<CLine>
    decreases cs
  {
    if cs == [] then [] else LinesOf(cs[0]) + Lines(cs[1..])
  }

  function LinesOf(c: CStmt): seq<CLine>
    decreases c
  {
    match c
    case CAssign(x, e) => [LAssign(x, e)]
    case CIf(arms, no) => ArmLines(arms, 0) + ElseLines(no)
    case CWhile(t, body) => [LWhile(t)] + Lines(body) + [LClose]
    case CDoWhile(body, t) => [LDo] + Lines(body) + [LDoEnd(t)]
    case CFor(x, first, t, step, body) => [LFor(x, first, t, step)] + Lines(body) + [LClose]
    case CDecl(x, e) => [LDecl(x, e)]
    case CBraces(body) => [LOpen] + Lines(body) + [LClose]
    case CComment => [LComment]
    case CBreak => [LBreak]
    case CReturn => [LReturn]
    case CGoto(target) => [LGoto(target)]
    case COnce(body, target) => [LDo] + Lines(body) + [LLabel(target), LOnceEnd]
  }

  // The arms from the k-th on; only the first is a plain `if`.
  function ArmLines(arms: seq<CArm>, k: nat): seq<CLine>
    requires k <= |arms|
    decreases arms, |arms| - k
  {
    if k == |arms| then []
    else ArmOpening(k, arms[k].test) + Lines(arms[k].body) + [LClose] + ArmLines(arms, k + 1)
  }

  function ElseLines(no: CElse): seq<CLine>
    decreases no
  {
    if no.Else? then [LElse] + Lines(no.body) + [LClose] else []
  }

  function ArmOpening<E>(k: nat, test: E): seq<Line<E>> {
    if k == 0 then [LIf(test)] else [LElseIf(test)]
  }

  // ----- what C reads -----

  datatype ReadLines<T> = ReadLines(value: T, rest: seq<CLine>)

  predicate EndsBlock(ls: seq<CLine>) {
    ls == [] || ls[0].LClose? || ls[0].LDoEnd? || ls[0].LLabel?
  }

  function ReadBlock(ls: seq<CLine>): (r: Option<ReadLines<seq<CStmt>>>)
    ensures r.Some? ==> |r.value.rest| <= |ls|
    decreases |ls|, 1
  {
    if EndsBlock(ls) then Some(ReadLines([], ls))
    else
      var c := ReadStatement(ls);
      var more := if c.None? then None else ReadBlock(c.value.rest);
      if more.None? then None else Some(ReadLines([c.value.value] + more.value.value, more.value.rest))
  }

  function ReadStatement(ls: seq<CLine>): (r: Option<ReadLines<CStmt>>)
    ensures r.Some? ==> |r.value.rest| < |ls|
    decreases |ls|, 0
  {
    if ls == [] then None
    else
      var rest := ls[1..];
      match ls[0]
      case LAssign(x, e) => Some(ReadLines(CAssign(x, e), rest))
      case LIf(t) =>
        var body := ReadBody(rest);
        var arms := if body.None? then None else ReadArms(body.value.rest);
        var no := if arms.None? then None else ReadElse(arms.value.rest);
        if no.None? then None
        else Some(ReadLines(CIf([CArm(t, body.value.value)] + arms.value.value, no.value.value), no.value.rest))
      case LWhile(t) =>
        var body := ReadBody(rest);
        if body.None? then None else Some(ReadLines(CWhile(t, body.value.value), body.value.rest))
      case LFor(x, first, t, step) =>
        var body := ReadBody(rest);
        if body.None? then None else Some(ReadLines(CFor(x, first, t, step, body.value.value), body.value.rest))
      case LOpen =>
        var body := ReadBody(rest);
        if body.None? then None else Some(ReadLines(CBraces(body.value.value), body.value.rest))
      case LDo =>
        var body := ReadBlock(rest);
        if body.None? || body.value.rest == [] then None
        else
          var block, end := body.value.value, body.value.rest;
          if end[0].LDoEnd? then Some(ReadLines(CDoWhile(block, end[0].test), end[1..]))
          else if end[0].LLabel? && |end| > 1 && end[1].LOnceEnd? then
            Some(ReadLines(COnce(block, end[0].target), end[2..]))
          else None
      case LDecl(x, e) => Some(ReadLines(CDecl(x, e), rest))
      case LComment => Some(ReadLines(CComment, rest))
      case LBreak => Some(ReadLines(CBreak, rest))
      case LReturn => Some(ReadLines(CReturn, rest))
      case LGoto(target) => Some(ReadLines(CGoto(target), rest))
      case _ => None
  }

  // A block and the brace that closes it.
  function ReadBody(ls: seq<CLine>): (r: Option<ReadLines<seq<CStmt>>>)
    ensures r.Some? ==> |r.value.rest| < |ls|
    decreases |ls|, 2
  {
    var body := ReadBlock(ls);
    if body.None? || body.value.rest == [] || !body.value.rest[0].LClose? then None
    else Some(ReadLines(body.value.value, body.value.rest[1..]))
  }

  // Any `else if` arms that follow.
  function ReadArms(ls: seq<CLine>): (r: Option<ReadLines<seq<CArm>>>)
    ensures r.Some? ==> |r.value.rest| <= |ls|
    decreases |ls|, 2
  {
    if ls == [] || !ls[0].LElseIf? then Some(ReadLines([], ls))
    else
      var body := ReadBody(ls[1..]);
      var more := if body.None? then None else ReadArms(body.value.rest);
      if more.None? then None
      else Some(ReadLines([CArm(ls[0].test, body.value.value)] + more.value.value, more.value.rest))
  }

  function ReadElse(ls: seq<CLine>): (r: Option<ReadLines<CElse>>)
    ensures r.Some? ==> |r.value.rest| <= |ls|
    decreases |ls|, 2
  {
    if ls == [] || !ls[0].LElse? then Some(ReadLines(NoElse, ls))
    else
      var body := ReadBody(ls[1..]);
      if body.None? then None else Some(ReadLines(Else(body.value.value), body.value.rest))
  }

  // ----- the lines determine the statements -----

  // Every `if` has a first arm.
  predicate Shaped(cs: seq<CStmt>) {
    forall c <- cs :: StatementShaped(c)
  }

  predicate StatementShaped(c: CStmt) {
    match c
    case CIf(arms, no) => arms != [] && (forall a <- arms :: Shaped(a.body)) && (no.Else? ==> Shaped(no.body))
    case CWhile(_, body) => Shaped(body)
    case CDoWhile(body, _) => Shaped(body)
    case CFor(_, _, _, _, body) => Shaped(body)
    case CBraces(body) => Shaped(body)
    case COnce(body, _) => Shaped(body)
    case _ => true
  }

  // What may follow an `if`: nothing that would belong to it.
  predicate Apart(ls: seq<CLine>) {
    ls != [] ==> !ls[0].LElseIf? && !ls[0].LElse?
  }

  lemma StartsApart(c: CStmt, rest: seq<CLine>)
    requires StatementShaped(c)
    ensures Apart(LinesOf(c) + rest) && LinesOf(c) != [] && !EndsBlock(LinesOf(c) + rest)
  {
  }

  lemma Onward<T>(a: seq<T>, b: seq<T>, c: seq<T>)
    ensures (a + b) + c == a + (b + c)
  {
  }

  lemma {:induction false} BlockIsRead(cs: seq<CStmt>, rest: seq<CLine>)
    requires Shaped(cs) && EndsBlock(rest)
    ensures ReadBlock(Lines(cs) + rest) == Some(ReadLines(cs, rest))
    decreases cs, 0
  {
    hide ReadStatement, LinesOf, StatementShaped;
    if cs == [] {
      assert Lines(cs) + rest == rest;
    } else {
      var more := Lines(cs[1..]) + rest;
      assert cs[0] in cs && cs == [cs[0]] + cs[1..];
      Onward(LinesOf(cs[0]), Lines(cs[1..]), rest);
      BlockIsRead(cs[1..], rest);
      if cs[1..] == [] {
        assert more == rest;
      } else {
        assert cs[1] in cs;
        Onward(LinesOf(cs[1]), Lines(cs[1..][1..]), rest);
        StartsApart(cs[1], Lines(cs[1..][1..]) + rest);
      }
      StartsApart(cs[0], more);
      StatementIsRead(cs[0], more);
    }
  }

  lemma {:induction false} BodyIsRead(cs: seq<CStmt>, rest: seq<CLine>)
    requires Shaped(cs)
    ensures ReadBody(Lines(cs) + ([LClose] + rest)) == Some(ReadLines(cs, rest))
    decreases cs, 1
  {
    hide ReadBlock, Lines, Shaped;
    assert ([LClose] + rest)[1..] == rest;
    BlockIsRead(cs, [LClose] + rest);
  }

  // A line, a body, a closing brace, and the rest.
  lemma Opened(l: CLine, body: seq<CLine>, end: seq<CLine>, rest: seq<CLine>)
    ensures var ls := [l] + body + end + rest;
      ls[0] == l && ls[1..] == body + (end + rest)
  {
  }

  lemma {:induction false} StatementIsRead(c: CStmt, rest: seq<CLine>)
    requires StatementShaped(c) && Apart(rest)
    ensures ReadStatement(LinesOf(c) + rest) == Some(ReadLines(c, rest))
    decreases c
  {
    hide ReadStatement, LinesOf, Lines, Shaped;
    match c
    case CIf(_, _) => IfIsRead(c, rest);
    case CWhile(_, body) =>
      BodyIsRead(body, rest);
      BracedIsRead(c, rest);
    case CFor(_, _, _, _, body) =>
      BodyIsRead(body, rest);
      BracedIsRead(c, rest);
    case CBraces(body) =>
      BodyIsRead(body, rest);
      BracedIsRead(c, rest);
    case CDoWhile(body, t) =>
      BlockIsRead(body, [LDoEnd(t)] + rest);
      DoIsRead(c, rest);
    case COnce(body, target) =>
      BlockIsRead(body, [LLabel(target), LOnceEnd] + rest);
      DoIsRead(c, rest);
    case _ => OneLineIsRead(c, rest);
  }

  lemma OneLineIsRead(c: CStmt, rest: seq<CLine>)
    requires c.CAssign? || c.CDecl? || c.CComment? || c.CBreak? || c.CReturn? || c.CGoto?
    ensures ReadStatement(LinesOf(c) + rest) == Some(ReadLines(c, rest))
  {
    assert (LinesOf(c) + rest)[1..] == rest;
  }

  lemma BracedIsRead(c: CStmt, rest: seq<CLine>)
    requires c.CWhile? || c.CFor? || c.CBraces?
    requires ReadBody(Lines(c.body) + ([LClose] + rest)) == Some(ReadLines(c.body, rest))
    ensures ReadStatement(LinesOf(c) + rest) == Some(ReadLines(c, rest))
  {
    hide ReadBody, Lines;
    Opened(LinesOf(c)[0], Lines(c.body), [LClose], rest);
  }

  lemma DoIsRead(c: CStmt, rest: seq<CLine>)
    requires c.CDoWhile? || c.COnce?
    requires var end := (if c.CDoWhile? then [LDoEnd(c.test)] else [LLabel(c.target), LOnceEnd]) + rest;
      ReadBlock(Lines(c.body) + end) == Some(ReadLines(c.body, end))
    ensures ReadStatement(LinesOf(c) + rest) == Some(ReadLines(c, rest))
  {
    hide ReadBlock, Lines;
    var end := if c.CDoWhile? then [LDoEnd(c.test)] else [LLabel(c.target), LOnceEnd];
    Opened(LDo, Lines(c.body), end, rest);
    assert (end + rest)[|end|..] == rest;
  }

  lemma {:induction false} IfIsRead(c: CStmt, rest: seq<CLine>)
    requires c.CIf? && StatementShaped(c) && Apart(rest)
    ensures ReadStatement(LinesOf(c) + rest) == Some(ReadLines(c, rest))
    decreases c, 0
  {
    hide ReadBody, ReadArms, ReadElse, Lines, ArmLines, ElseLines, Shaped;
    var arms, no := c.arms, c.no;
    var after := ElseLines(no) + rest;
    ElseStarts(no, rest);
    ArmsAreRead(arms, 1, after);
    assert arms[0] in arms;
    BodyIsRead(arms[0].body, ArmLines(arms, 1) + after);
    ElseIsRead(no, rest);
    FirstArm(arms, no, rest);
    assert arms == [arms[0]] + arms[1..];
  }

  lemma ArmParts<T>(opening: T, body: seq<T>, close: T, more: seq<T>, after: seq<T>)
    ensures var ls := ([opening] + body + [close] + more) + after;
      ls[0] == opening && ls[1..] == body + ([close] + (more + after))
  {
  }

  lemma FirstArm(arms: seq<CArm>, no: CElse, rest: seq<CLine>)
    requires arms != []
    ensures var ls := ArmLines(arms, 0) + ElseLines(no) + rest;
      ls != [] && ls[0] == LIf(arms[0].test)
      && ls[1..] == Lines(arms[0].body) + ([LClose] + (ArmLines(arms, 1) + (ElseLines(no) + rest)))
  {
    hide Lines, ElseLines;
    Onward(ArmLines(arms, 0), ElseLines(no), rest);
    ArmParts(LIf(arms[0].test), Lines(arms[0].body), LClose, ArmLines(arms, 1), ElseLines(no) + rest);
  }

  lemma ElseStarts(no: CElse, rest: seq<CLine>)
    requires Apart(rest)
    ensures var after := ElseLines(no) + rest; after != [] ==> !after[0].LElseIf?
  {
  }

  lemma NextArmLines(arms: seq<CArm>, k: nat, after: seq<CLine>)
    requires 0 < k < |arms|
    ensures var ls := ArmLines(arms, k) + after;
      ls != [] && ls[0] == LElseIf(arms[k].test)
      && ls[1..] == Lines(arms[k].body) + ([LClose] + (ArmLines(arms, k + 1) + after))
  {
    hide Lines;
    ArmParts(LElseIf(arms[k].test), Lines(arms[k].body), LClose, ArmLines(arms, k + 1), after);
  }

  lemma {:induction false} ArmsAreRead(arms: seq<CArm>, k: nat, after: seq<CLine>)
    requires 1 <= k <= |arms| && forall a <- arms :: Shaped(a.body)
    requires after != [] ==> !after[0].LElseIf?
    ensures ReadArms(ArmLines(arms, k) + after) == Some(ReadLines(arms[k..], after))
    decreases arms, |arms| - k
  {
    hide ReadBody, Lines, Shaped;
    if k == |arms| {
      assert ArmLines(arms, k) + after == after;
    } else {
      hide ArmLines;
      assert arms[k] in arms;
      NextArmLines(arms, k, after);
      BodyIsRead(arms[k].body, ArmLines(arms, k + 1) + after);
      ArmsAreRead(arms, k + 1, after);
      assert arms[k..] == [arms[k]] + arms[k + 1..];
    }
  }

  lemma {:induction false} ElseIsRead(no: CElse, rest: seq<CLine>)
    requires Apart(rest) && (no.Else? ==> Shaped(no.body))
    ensures ReadElse(ElseLines(no) + rest) == Some(ReadLines(no, rest))
    decreases no
  {
    hide ReadBody, Lines, Shaped;
    if no.Else? {
      Opened(LElse, Lines(no.body), [LClose], rest);
      BodyIsRead(no.body, rest);
    } else {
      assert ElseLines(no) + rest == rest;
    }
  }

  // C reads the statements from their lines, whole.
  lemma LinesAreRead(cs: seq<CStmt>)
    requires Shaped(cs)
    ensures ReadBlock(Lines(cs)) == Some(ReadLines(cs, []))
  {
    hide Lines, ReadBlock, Shaped;
    assert Lines(cs) + [] == Lines(cs);
    BlockIsRead(cs, []);
  }
}
