/**
 * The lossless lexer of the language service: every byte of the text belongs
 * to exactly one token.
 */
module Lexer {
  datatype Kind =
    | Identifier | Keyword | Number | StringLiteral | DirectVariable | Comment
    | Pragma | Whitespace | Symbol | XmlTag | Unknown

  // Offsets are in bytes of the UTF-8 text.
  datatype Token = Token(kind: Kind, lexeme: string, start: nat, end: nat)

  // Bytes of a character in UTF-8.
  function Utf8Len(c: char): (n: nat)
    ensures 1 <= n <= 4
  {
    if c as int < 0x80 then 1 else if c as int < 0x800 then 2 else if c as int < 0x1_0000 then 3 else 4
  }

  function ByteLen(text: string): nat {
    if text == "" then 0 else ByteLen(text[..|text| - 1]) + Utf8Len(text[|text| - 1])
  }

  lemma {:induction false} ByteLenAppend(a: string, b: string)
    ensures ByteLen(a + b) == ByteLen(a) + ByteLen(b)
  {
    if b == "" {
      assert a + b == a;
    } else {
      var n := |b| - 1;
      assert (a + b)[..|a + b| - 1] == a + b[..n];
      ByteLenAppend(a, b[..n]);
    }
  }

  predicate IsAsciiAlpha(c: char) { 'a' <= c <= 'z' || 'A' <= c <= 'Z' }
  predicate IsAsciiDigit(c: char) { '0' <= c <= '9' }
  predicate IsIdentStart(c: char) { IsAsciiAlpha(c) || c == '_' }
  predicate IsIdentContinue(c: char) { IsAsciiAlpha(c) || IsAsciiDigit(c) || c == '_' }
  predicate IsDirectContinue(c: char) { IsAsciiAlpha(c) || IsAsciiDigit(c) || c == '.' || c == '_' }

  // The Unicode property White_Space.
  predicate IsWhitespace(c: char) {
    var n := c as int;
    9 <= n <= 13 || n == 0x20 || n == 0x85 || n == 0xA0 || n == 0x1680 || 0x2000 <= n <= 0x200A ||
    n == 0x2028 || n == 0x2029 || n == 0x202F || n == 0x205F || n == 0x3000
  }

  predicate IsSymbol(c: char) {
    c == '>' || c == '/' || c == ':' || c == ';' || c == ',' || c == '(' || c == ')' || c == '[' || c == ']' ||
    c == '.' || c == '+' || c == '-' || c == '*' || c == '=' || c == '&'
  }

  function Upper(c: char): char {
    if 'a' <= c <= 'z' then (c as int - 32) as char else c
  }

  function Canonical(s: string): string {
    seq(|s|, k requires 0 <= k < |s| => Upper(s[k]))
  }

  // `prefix` occurs in the text at a position.
  predicate StartsWith(text: string, at: nat, prefix: string) {
    at + |prefix| <= |text| && text[at..at + |prefix|] == prefix
  }

  // ----- the scanning loops -----

  // Position `at`, counted in characters, is byte offset `pos`.
  ghost predicate Cursor(text: string, at: nat, pos: nat) {
    at <= |text| && pos == ByteLen(text[..at])
  }

  lemma Advance(text: string, at: nat, pos: nat)
    requires Cursor(text, at, pos) && at < |text|
    ensures Cursor(text, at + 1, pos + Utf8Len(text[at])) && pos < ByteLen(text)
  {
    assert text[..at + 1][..at] == text[..at];
    assert text == text[..at] + text[at..];
    assert text[at..] == [text[at]] + text[at + 1..];
    ByteLenAppend(text[..at], text[at..]);
    ByteLenAppend([text[at]], text[at + 1..]);
    assert [text[at]][..0] == "";
  }

  // The longest stretch of characters that satisfy `keep`.
  method SkipWhile(text: string, at0: nat, pos0: nat, keep: char -> bool) returns (at: nat, pos: nat)
    requires Cursor(text, at0, pos0)
    ensures Cursor(text, at, pos) && at0 <= at
    ensures forall k :: at0 <= k < at ==> keep(text[k])
    ensures at < |text| ==> !keep(text[at])
  {
    at, pos := at0, pos0;
    while at < |text| && keep(text[at])
      invariant Cursor(text, at, pos) && at0 <= at
      invariant forall k :: at0 <= k < at ==> keep(text[k])
    {
      Advance(text, at, pos);
      at, pos := at + 1, pos + Utf8Len(text[at]);
    }
  }

  // Up to the first occurrence of a terminator of ASCII characters, and past
  // it; to the end of the text when there is none.
  method SkipPast(text: string, at0: nat, pos0: nat, terminator: string) returns (at: nat, pos: nat)
    requires Cursor(text, at0, pos0) && |terminator| > 0
    requires forall c :: c in terminator ==> Utf8Len(c) == 1
    ensures Cursor(text, at, pos) && at0 <= at
    ensures at == |text| || (at0 + |terminator| <= at && StartsWith(text, at - |terminator|, terminator))
    ensures forall k: nat :: at0 <= k && k + |terminator| < at ==> !StartsWith(text, k, terminator)
  {
    at, pos := at0, pos0;
    while at < |text| && !StartsWith(text, at, terminator)
      invariant Cursor(text, at, pos) && at0 <= at
      invariant forall k: nat :: at0 <= k < at ==> !StartsWith(text, k, terminator)
    {
      Advance(text, at, pos);
      at, pos := at + 1, pos + Utf8Len(text[at]);
    }
    if at < |text| {
      PastTerminator(text, at, pos, terminator);
      at, pos := at + |terminator|, pos + |terminator|;
    }
  }

  lemma PastTerminator(text: string, at: nat, pos: nat, terminator: string)
    requires Cursor(text, at, pos) && StartsWith(text, at, terminator)
    requires forall c :: c in terminator ==> Utf8Len(c) == 1
    ensures Cursor(text, at + |terminator|, pos + |terminator|)
  {
    ByteLenAppend(text[..at], terminator);
    AsciiLen(terminator);
    assert text[..at + |terminator|] == text[..at] + terminator;
  }

  lemma {:induction false} AsciiLen(s: string)
    requires forall c :: c in s ==> Utf8Len(c) == 1
    ensures ByteLen(s) == |s|
  {
    if s == "" {
    } else {
      assert s == s[..|s| - 1] + [s[|s| - 1]];
      AsciiLen(s[..|s| - 1]);
    }
  }

  // ----- tokens -----

  // What the lexeme of each kind looks like.
  predicate Shape(kind: Kind, s: string, keywords: seq<string>)
    requires |s| > 0
  {
    match kind
    case Whitespace => forall c :: c in s ==> IsWhitespace(c)
    case Comment => "(*" <= s || ("//" <= s && '\n' !in s)
    case Pragma => s[0] == '{'
    case StringLiteral => s[0] == '\'' || s[0] == '"'
    case DirectVariable => s[0] == '%' && forall k :: 1 <= k < |s| ==> IsDirectContinue(s[k])
    case XmlTag => s[0] == '<'
    case Keyword => IsWord(s) && InTable(s, keywords)
    case Identifier => IsWord(s) && !InTable(s, keywords)
    case Number => IsAsciiDigit(s[0]) && forall k :: 1 <= k < |s| ==> IsDirectContinue(s[k])
    case Symbol => |s| == 1 && IsSymbol(s[0])
    case Unknown => |s| == 1
  }

  predicate IsWord(s: string) {
    |s| > 0 && IsIdentStart(s[0]) && forall k :: 1 <= k < |s| ==> IsIdentContinue(s[k])
  }

  predicate InTable(s: string, keywords: seq<string>) {
    exists k :: 0 <= k < |keywords| && Canonical(keywords[k]) == Canonical(s)
  }

  function Lexemes(tokens: seq<Token>): string {
    if tokens == [] then "" else Lexemes(tokens[..|tokens| - 1]) + tokens[|tokens| - 1].lexeme
  }

  // Tokens are non-empty, adjoin from offset 0 to `end`, and spell the text.
  ghost predicate Lossless(tokens: seq<Token>, text: string, keywords: seq<string>, end: nat) {
    && Lexemes(tokens) == text
    && (forall k :: 0 <= k < |tokens| ==>
          && |tokens[k].lexeme| > 0
          && tokens[k].end == tokens[k].start + ByteLen(tokens[k].lexeme)
          && Shape(tokens[k].kind, tokens[k].lexeme, keywords))
    && (forall k :: 0 <= k < |tokens| - 1 ==> tokens[k].end == tokens[k + 1].start)
    && (if tokens == [] then end == 0 else tokens[0].start == 0 && tokens[|tokens| - 1].end == end)
  }

  lemma PushKeepsLossless(tokens: seq<Token>, text: string, keywords: seq<string>, from: nat, to: nat, start: nat,
      end: nat, kind: Kind)
    requires from < to <= |text| && Cursor(text, from, start) && Cursor(text, to, end)
    requires Lossless(tokens, text[..from], keywords, start)
    requires Shape(kind, text[from..to], keywords)
    ensures Lossless(tokens + [Token(kind, text[from..to], start, end)], text[..to], keywords, end)
  {
    hide Shape, ByteLen;
    var t := Token(kind, text[from..to], start, end);
    var all := tokens + [t];
    assert text[..to] == text[..from] + text[from..to];
    ByteLenAppend(text[..from], text[from..to]);
    assert all[..|all| - 1] == tokens;
  }

  // The end of the token that starts at `at`, and its kind.
  method NextToken(text: string, at0: nat, pos0: nat, keywords: seq<string>) returns (kind: Kind, at: nat, pos: nat)
    requires Cursor(text, at0, pos0) && at0 < |text|
    ensures Cursor(text, at, pos) && at0 < at
    ensures Shape(kind, text[at0..at], keywords)
  {
    var c := text[at0];
    Advance(text, at0, pos0);
    at, pos := at0 + 1, pos0 + Utf8Len(c);
    if IsWhitespace(c) {
      at, pos := SkipWhile(text, at, pos, IsWhitespace);
      kind := Whitespace;
    } else if StartsWith(text, at0, "(*") || StartsWith(text, at0, "//")
        || c == '{' || c == '\'' || c == '"' || c == '<' {
      kind, at, pos := NextDelimited(text, at0, pos0, keywords);
    } else if c == '%' {
      at, pos := SkipWhile(text, at, pos, IsDirectContinue);
      kind := DirectVariable;
    } else if IsIdentStart(c) {
      at, pos := SkipWhile(text, at, pos, IsIdentContinue);
      kind := if InTable(text[at0..at], keywords) then Keyword else Identifier;
    } else if IsAsciiDigit(c) {
      at, pos := SkipWhile(text, at, pos, IsDirectContinue);
      kind := Number;
    } else if IsSymbol(c) {
      kind := Symbol;
    } else {
      kind := Unknown;
    }
  }

  // Comments, pragmas, strings and tags, which may lack their end.
  method NextDelimited(text: string, at0: nat, pos0: nat, keywords: seq<string>) returns (kind: Kind, at: nat, pos: nat)
    requires Cursor(text, at0, pos0) && at0 < |text|
    requires var c := text[at0];
      StartsWith(text, at0, "(*") || StartsWith(text, at0, "//") || c == '{' || c == '\'' || c == '"' || c == '<'
    ensures Cursor(text, at, pos) && at0 < at
    ensures Shape(kind, text[at0..at], keywords)
  {
    hide ByteLen, IsWord, InTable;
    var c := text[at0];
    Advance(text, at0, pos0);
    at, pos := at0 + 1, pos0 + Utf8Len(c);
    if StartsWith(text, at0, "(*") {
      PastTerminator(text, at0, pos0, "(*");
      at, pos := SkipPast(text, at0 + 2, pos0 + 2, "*)");
      kind := Comment;
      assert text[at0..at][..2] == text[at0..at0 + 2];
    } else if StartsWith(text, at0, "//") {
      PastTerminator(text, at0, pos0, "//");
      at, pos := SkipWhile(text, at0 + 2, pos0 + 2, x => x != '\n');
      kind := Comment;
      assert text[at0..at][..2] == text[at0..at0 + 2];
      assert text[at0] == '/' && text[at0 + 1] == '/';
    } else if c == '{' {
      at, pos := SkipPast(text, at, pos, "}");
      kind := Pragma;
    } else if c == '\'' || c == '"' {
      at, pos := SkipPast(text, at, pos, [c]);
      kind := StringLiteral;
    } else {
      at, pos := SkipPast(text, at, pos, ">");
      kind := XmlTag;
    }
  }

  // For every text, unterminated comments, strings, pragmas and tags included.
  method LexPreservingTokens(text: string, keywords: seq<string>) returns (tokens: seq<Token>)
    ensures Lossless(tokens, text, keywords, ByteLen(text))
  {
    tokens := [];
    var at: nat, pos: nat := 0, 0;
    while at < |text|
      invariant Cursor(text, at, pos)
      invariant Lossless(tokens, text[..at], keywords, pos)
      decreases |text| - at
    {
      var start, from := pos, at;
      var kind;
      kind, at, pos := NextToken(text, from, start, keywords);
      PushKeepsLossless(tokens, text, keywords, from, at, start, pos, kind);
      tokens := tokens + [Token(kind, text[from..at], start, pos)];
    }
    assert text[..|text|] == text;
  }
}
