/** The lexer of the query language (parser.cpp). The functions say which token stands at a position and
    where the next one is looked for; the class moves its position like the source. */
module Lexer {

  datatype Kind =
    | KeywordCreate | KeywordMatch | KeywordReturn | KeywordWhere | Identifier | StringLiteral | NumberLiteral
    | LeftParen | RightParen | LeftBracket | RightBracket | LeftBrace | RightBrace | Colon | Comma
    | ArrowRight | ArrowLeft | Dash | Dot | Equals | LessThan | GreaterThan
    | KeywordAs | KeywordDelete | KeywordSet | KeywordUnwind | Eof | Unknown

  datatype Token = Token(kind: Kind, text: string, position: nat)

  datatype Charset = SPACE | NAME | NUMBER

  predicate IsAlpha(c: char) { 'a' <= c <= 'z' || 'A' <= c <= 'Z' }

  predicate IsDigit(c: char) { '0' <= c <= '9' }

  predicate IsSpace(c: char) { c == ' ' || 9 as char <= c <= 13 as char }

  predicate In(cs: Charset, c: char) {
    match cs
    case SPACE => IsSpace(c)
    case NAME => IsAlpha(c) || IsDigit(c) || c == '_'
    case NUMBER => IsDigit(c) || c == '.'
  }

  /** The first position from `i` on whose character is not in the set. */
  function SpanEnd(s: string, cs: Charset, i: nat): (n: nat)
    requires i <= |s|
    ensures i <= n <= |s| && (n < |s| ==> !In(cs, s[n]))
    ensures forall k :: i <= k < n ==> In(cs, s[k])
    decreases |s| - i
  {
    if i == |s| || !In(cs, s[i]) then i else SpanEnd(s, cs, i + 1)
  }

  function ToUpper(c: char): char {
    if 'a' <= c <= 'z' then (c as int - 32) as char else c
  }

  function Upper(s: string): (r: string)
    ensures |r| == |s|
  {
    seq(|s|, i requires 0 <= i < |s| => ToUpper(s[i]))
  }

  /** Keywords are recognised in any case. DETACH is a keyword of the same kind as DELETE. */
  function NameKind(text: string): Kind {
    var t := Upper(text);
    if t == "AS" then KeywordAs
    else if t == "SET" then KeywordSet
    else if t == "MATCH" then KeywordMatch
    else if t == "WHERE" then KeywordWhere
    else if t == "CREATE" then KeywordCreate
    else if t == "RETURN" then KeywordReturn
    else if t == "DELETE" || t == "DETACH" then KeywordDelete
    else if t == "UNWIND" then KeywordUnwind
    else Identifier
  }

  /** Where a string that opened before `i` ends: at its closing quote or at the end of the input. A
      backslash takes the next character with it. */
  function StringEnd(s: string, quote: char, i: nat): (n: nat)
    requires i <= |s|
    ensures i <= n <= |s|
    decreases |s| - i
  {
    if i == |s| || s[i] == quote then i
    else if s[i] == '\\' then StringEnd(s, quote, if i + 2 <= |s| then i + 2 else |s|)
    else StringEnd(s, quote, i + 1)
  }

  /** The text of a string token that spans `start` to `end`: the closing quote is taken off, and so is
      the last character when the quote is missing. */
  function StringText(s: string, start: nat, end: nat): string
    requires start < end <= |s|
  {
    if end - start < 2 then s[start + 1..] else s[start + 1..end - 1]
  }

  /** A token and the position after it. */
  datatype Scan = Scan(token: Token, next: nat)

  function Peek(s: string, i: nat): char {
    if i < |s| then s[i] else '\0'
  }

  function SymbolAt(s: string, i: nat): (r: Scan)
    requires i < |s|
    ensures r.token.position == i < r.next <= |s|
  {
    var c, d := s[i], Peek(s, i + 1);
    match c
    case '(' => Scan(Token(LeftParen, "(", i), i + 1)
    case ')' => Scan(Token(RightParen, ")", i), i + 1)
    case '{' => Scan(Token(LeftBrace, "{", i), i + 1)
    case '}' => Scan(Token(RightBrace, "}", i), i + 1)
    case '[' => Scan(Token(LeftBracket, "[", i), i + 1)
    case ']' => Scan(Token(RightBracket, "]", i), i + 1)
    case ':' => Scan(Token(Colon, ":", i), i + 1)
    case ',' => Scan(Token(Comma, ",", i), i + 1)
    case '.' => Scan(Token(Dot, ".", i), i + 1)
    case '=' => Scan(Token(Equals, "=", i), i + 1)
    case '>' =>
      if d == '=' then Scan(Token(GreaterThan, ">=", i), i + 2) else Scan(Token(GreaterThan, ">", i), i + 1)
    case '<' =>
      if d == '-' then Scan(Token(ArrowLeft, "<-", i), i + 2)
      else if d == '>' then Scan(Token(GreaterThan, "<>", i), i + 2)
      else if d == '=' then Scan(Token(LessThan, "<=", i), i + 2)
      else Scan(Token(LessThan, "<", i), i + 1)
    case '-' =>
      if d == '>' then Scan(Token(ArrowRight, "->", i), i + 2) else Scan(Token(Dash, "-", i), i + 1)
    case _ => Scan(Token(Unknown, [c], i), i + 1)
  }

  function TokenAt(s: string, i: nat): (r: Scan)
    requires i < |s|
    ensures r.token.position == i < r.next <= |s|
  {
    if IsAlpha(s[i]) || s[i] == '_' then
      var end := SpanEnd(s, NAME, i + 1);
      Scan(Token(NameKind(s[i..end]), s[i..end], i), end)
    else if IsDigit(s[i]) then
      var end := SpanEnd(s, NUMBER, i + 1);
      Scan(Token(NumberLiteral, s[i..end], i), end)
    else if s[i] == '\'' || s[i] == '"' then
      var close := StringEnd(s, s[i], i + 1);
      var end := if close < |s| then close + 1 else close;
      Scan(Token(StringLiteral, StringText(s, i, end), i), end)
    else SymbolAt(s, i)
  }

  /** All tokens from `i` on, with the end marker. */
  function Lex(s: string, i: nat): (ts: seq<Token>)
    requires i <= |s|
    ensures ts != []
    decreases |s| - i
  {
    var j := SpanEnd(s, SPACE, i);
    if j == |s| then [Token(Eof, "", j)]
    else [TokenAt(s, j).token] + Lex(s, TokenAt(s, j).next)
  }

  /** On every input: token positions increase strictly, and the end marker comes last and only there. */
  lemma {:induction false} PositionsIncrease(s: string, i: nat)
    requires i <= |s|
    ensures InOrder(Lex(s, i), i, |s|)
    decreases |s| - i
  {
    hide TokenAt;
    var j := SpanEnd(s, SPACE, i);
    if j < |s| {
      var next := TokenAt(s, j).next;
      PositionsIncrease(s, next);
      NotEof(s, j);
      FirstInOrder(TokenAt(s, j).token, Lex(s, next), i, next, |s|);
    }
  }

  ghost predicate InOrder(ts: seq<Token>, from: nat, to: nat) {
    && (forall k :: 0 <= k < |ts| ==> from <= ts[k].position <= to)
    && (forall j, k :: 0 <= j < k < |ts| ==> ts[j].position < ts[k].position)
    && (forall k :: 0 <= k < |ts| ==> (ts[k].kind == Eof <==> k == |ts| - 1))
  }

  lemma FirstInOrder(t: Token, rest: seq<Token>, from: nat, next: nat, to: nat)
    requires InOrder(rest, next, to) && rest != [] && from <= t.position < next <= to && t.kind != Eof
    ensures InOrder([t] + rest, from, to)
  {
    var ts := [t] + rest;
    assert forall k :: 1 <= k < |ts| ==> ts[k] == rest[k - 1];
  }

  lemma NotEof(s: string, i: nat)
    requires i < |s|
    ensures TokenAt(s, i).token.kind != Eof
  {
    hide StringEnd, StringText, SpanEnd;
  }

  class Lexer {
    const input: string
    var pos: nat

    ghost predicate Valid()
      reads this
    {
      pos <= |input|
    }

    constructor (input: string)
      ensures Valid() && this.input == input && pos == 0
    {
      this.input, pos := input, 0;
    }

    method PeekChar() returns (c: char)
      ensures c == Peek(input, pos)
    {
      if pos >= |input| { return '\0'; }
      return input[pos];
    }

    method Advance() returns (c: char)
      requires Valid()
      modifies this
      ensures Valid() && pos == (if old(pos) < |input| then old(pos) + 1 else old(pos)) && c == Peek(input, old(pos))
    {
      if pos >= |input| { return '\0'; }
      c := input[pos];
      pos := pos + 1;
    }

    method SkipSpan(cs: Charset)
      requires Valid()
      modifies this
      ensures Valid() && pos == SpanEnd(input, cs, old(pos))
    {
      while pos < |input| && In(cs, input[pos])
        invariant Valid() && SpanEnd(input, cs, pos) == SpanEnd(input, cs, old(pos))
        decreases |input| - pos
      {
        var c := Advance();
      }
    }

    method ScanIdentifierOrKeyword() returns (t: Token)
      requires Valid() && pos < |input| && In(NAME, input[pos])
      modifies this
      ensures Valid() && pos == SpanEnd(input, NAME, old(pos) + 1)
      ensures t == Token(NameKind(input[old(pos)..pos]), input[old(pos)..pos], old(pos))
    {
      var start := pos;
      SkipSpan(NAME);
      return Token(NameKind(input[start..pos]), input[start..pos], start);
    }

    method ScanNumber() returns (t: Token)
      requires Valid() && pos < |input| && In(NUMBER, input[pos])
      modifies this
      ensures Valid() && pos == SpanEnd(input, NUMBER, old(pos) + 1)
      ensures t == Token(NumberLiteral, input[old(pos)..pos], old(pos))
    {
      var start := pos;
      SkipSpan(NUMBER);
      return Token(NumberLiteral, input[start..pos], start);
    }

    method ScanString() returns (t: Token)
      requires Valid() && pos < |input|
      modifies this
      ensures Valid()
      ensures var close := StringEnd(input, input[old(pos)], old(pos) + 1);
        && pos == (if close < |input| then close + 1 else close)
        && t == Token(StringLiteral, StringText(input, old(pos), pos), old(pos))
    {
      var start := pos;
      var quote := Advance();
      var c;
      while pos < |input| && input[pos] != quote
        invariant start < pos && Valid() && StringEnd(input, quote, pos) == StringEnd(input, quote, start + 1)
        decreases |input| - pos
      {
        if input[pos] == '\\' { c := Advance(); }
        c := Advance();
      }
      if pos < |input| { c := Advance(); }
      // substr(start + 1, pos - start - 2): the count wraps around for a lone quote
      return Token(StringLiteral, if pos - start < 2 then input[start + 1..] else input[start + 1..pos - 1], start);
    }

    method ScanSymbol() returns (t: Token)
      requires Valid() && pos < |input|
      modifies this
      ensures Valid() && Scan(t, pos) == SymbolAt(input, old(pos))
    {
      var start := pos;
      var c := Advance();
      var d := PeekChar();
      if c == '(' { return Token(LeftParen, "(", start); }
      if c == ')' { return Token(RightParen, ")", start); }
      if c == '{' { return Token(LeftBrace, "{", start); }
      if c == '}' { return Token(RightBrace, "}", start); }
      if c == '[' { return Token(LeftBracket, "[", start); }
      if c == ']' { return Token(RightBracket, "]", start); }
      if c == ':' { return Token(Colon, ":", start); }
      if c == ',' { return Token(Comma, ",", start); }
      if c == '.' { return Token(Dot, ".", start); }
      if c == '=' { return Token(Equals, "=", start); }
      if c == '>' {
        if d == '=' { d := Advance(); return Token(GreaterThan, ">=", start); }
        return Token(GreaterThan, ">", start);
      }
      if c == '<' {
        if d == '-' { d := Advance(); return Token(ArrowLeft, "<-", start); }
        if d == '>' { d := Advance(); return Token(GreaterThan, "<>", start); }
        if d == '=' { d := Advance(); return Token(LessThan, "<=", start); }
        return Token(LessThan, "<", start);
      }
      if c == '-' {
        if d == '>' { d := Advance(); return Token(ArrowRight, "->", start); }
        return Token(Dash, "-", start);
      }
      return Token(Unknown, [c], start);
    }

    method ScanToken() returns (t: Token)
      requires Valid() && pos < |input|
      modifies this
      ensures Valid() && Scan(t, pos) == TokenAt(input, old(pos))
    {
      hide SpanEnd, NameKind, StringEnd, StringText, SymbolAt;
      if IsAlpha(input[pos]) || input[pos] == '_' {
        t := ScanIdentifierOrKeyword();
      } else if IsDigit(input[pos]) {
        t := ScanNumber();
      } else if input[pos] == '\'' || input[pos] == '"' {
        t := ScanString();
      } else {
        t := ScanSymbol();
      }
    }

    method Tokenize() returns (tokens: seq<Token>)
      requires Valid()
      modifies this
      ensures Valid() && tokens == Lex(input, old(pos))
    {
      hide SpanEnd, TokenAt;
      tokens := [];
      while pos < |input|
        invariant Valid() && Lex(input, old(pos)) == tokens + Lex(input, pos)
        decreases |input| - pos
      {
        ghost var from := pos;
        SkipSpan(SPACE);
        if pos >= |input| {
          SpaceOnly(input, from);
          break;
        }
        var t := ScanToken();
        assert Lex(input, from) == [t] + Lex(input, pos);
        tokens := tokens + [t];
      }
      AtEnd(input);
      tokens := tokens + [Token(Eof, "", pos)];
    }
  }

  lemma SpaceOnly(s: string, i: nat)
    requires i <= |s| && SpanEnd(s, SPACE, i) == |s|
    ensures Lex(s, i) == [Token(Eof, "", |s|)] == Lex(s, |s|)
  {
  }

  lemma AtEnd(s: string)
    ensures Lex(s, |s|) == [Token(Eof, "", |s|)]
  {
  }
}
