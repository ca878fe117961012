/** The canonical text lexes to the words it was spelled from, and so parsing inverts rendering. */
module LexRoundTrip {
  import opened Bytes
  import opened Ast
  import opened Lexer
  import opened Parsing
  import opened Rendering
  import opened ParseRoundTrip

  // ---- one word ----

  lemma {:induction false} SpanIs(s: string, cs: Charset, i: nat, j: nat)
    requires i <= j <= |s| && (forall k :: i <= k < j ==> In(cs, s[k])) && (j < |s| ==> !In(cs, s[j]))
    ensures SpanEnd(s, cs, i) == j
    decreases j - i
  {
    if i < j { SpanIs(s, cs, i + 1, j); }
  }

  /** A text that can be quoted ends at its closing quote. */
  lemma {:induction false} StringEndIs(s: string, quote: char, i: nat, j: nat)
    requires i <= j < |s| && s[j] == quote && quote != '\\' && Quotable(s[i..j], quote)
    ensures StringEnd(s, quote, i) == j
    decreases j - i
  {
    if i < j {
      var t := s[i..j];
      assert t[0] == s[i];
      if s[i] == '\\' {
        assert t[2..] == s[i + 2..j];
        StringEndIs(s, quote, i + 2, j);
      } else {
        assert t[1..] == s[i + 1..j];
        StringEndIs(s, quote, i + 1, j);
      }
    }
  }

  /** Conversely, what stands between a quote and its closing quote can be quoted. */
  lemma {:induction false} LexedIsQuotable(s: string, quote: char, i: nat)
    requires i <= |s| && quote != '\\' && StringEnd(s, quote, i) < |s|
    ensures Quotable(s[i..StringEnd(s, quote, i)], quote)
    decreases |s| - i
  {
    var j := StringEnd(s, quote, i);
    var t := s[i..j];
    if s[i] != quote {
      if s[i] == '\\' {
        LexedIsQuotable(s, quote, if i + 2 <= |s| then i + 2 else |s|);
        assert t[0] == '\\' && t[2..] == s[i + 2..j];
      } else {
        LexedIsQuotable(s, quote, i + 1);
        assert t[0] == s[i] && t[1..] == s[i + 1..j];
      }
    }
  }

  /** The text stands at i and white space or the end follows. */
  ghost predicate SpelledAt(s: string, i: nat, t: string) {
    && t != "" && i + |t| <= |s| && (i + |t| < |s| ==> IsSpace(s[i + |t|]))
    && forall k :: 0 <= k < |t| ==> s[i + k] == t[k]
  }

  lemma LexedNameLike(s: string, i: nat, t: string)
    requires SpelledAt(s, i, t) && (IsAlpha(t[0]) || t[0] == '_') && forall k :: 0 <= k < |t| ==> In(NAME, t[k])
    ensures TokenAt(s, i) == Scan(Token(NameKind(t), t, i), i + |t|)
  {
    hide NameKind;
    forall k | i + 1 <= k < i + |t| ensures In(NAME, s[k]) { assert s[i + (k - i)] == t[k - i]; }
    assert s[i + 0] == t[0];
    SpanIs(s, NAME, i + 1, i + |t|);
    assert s[i..i + |t|] == t;
  }

  lemma LexedNumber(s: string, i: nat, t: string)
    requires SpelledAt(s, i, t) && IsNumber(t)
    ensures TokenAt(s, i) == Scan(Token(NumberLiteral, t, i), i + |t|)
  {
    forall k | i + 1 <= k < i + |t| ensures In(NUMBER, s[k]) { assert s[i + (k - i)] == t[k - i]; }
    assert s[i + 0] == t[0];
    SpanIs(s, NUMBER, i + 1, i + |t|);
    assert s[i..i + |t|] == t;
  }

  /** A quoted text lexes to itself, backslashes included: they protect a quote but stay in the token. */
  lemma LexedString(s: string, i: nat, t: string, quote: char)
    requires (quote == '\'' || quote == '"') && SpelledAt(s, i, Quote(t, quote)) && Quotable(t, quote)
    ensures TokenAt(s, i) == Scan(Token(StringLiteral, t, i), i + |t| + 2)
  {
    hide SymbolAt, NameKind, SpanEnd, StringEnd, Quotable;
    var quoted := Quote(t, quote);
    var close := i + 1 + |t|;
    assert s[i + 0] == quoted[0] == quote && s[i + (|t| + 1)] == quoted[|t| + 1] == quote;
    assert s[i + 1..close] == t by {
      forall k | 0 <= k < |t| ensures s[i + 1 + k] == t[k] { assert s[i + (k + 1)] == quoted[k + 1]; }
    }
    StringEndIs(s, quote, i + 1, close);
  }

  lemma UpperIs(t: string)
    requires forall k :: 0 <= k < |t| ==> 'A' <= t[k] <= 'Z'
    ensures Upper(t) == t && forall k :: 0 <= k < |t| ==> In(NAME, t[k])
  {
  }

  const KEYWORDS: set<Word> := { CREATE, MATCH, RETURN, WHERE, DETACH, DELETE, SET, UNWIND, AS }

  lemma KeywordSpelling(w: Word)
    requires w in KEYWORDS
    ensures w.text != "" && (forall k :: 0 <= k < |w.text| ==> 'A' <= w.text[k] <= 'Z') && NameKind(w.text) == w.kind
    ensures IsKeyword(w.kind)
  {
    assert forall k :: 0 <= k < |w.text| ==> 'A' <= w.text[k] <= 'Z';
    UpperIs(w.text);
    hide Upper;
  }

  /** A keyword in any case. */
  lemma KeywordInAnyCase(t: string, w: Word)
    requires w in KEYWORDS && Upper(t) == w.text
    ensures t != "" && IsAlpha(t[0]) && (forall k :: 0 <= k < |t| ==> In(NAME, t[k])) && NameKind(t) == w.kind
  {
    KeywordSpelling(w);
    UpperIs(w.text);
    assert |t| == |w.text|;
    forall k | 0 <= k < |t| ensures IsAlpha(t[k]) { assert Upper(t)[k] == ToUpper(t[k]); }
    hide Upper;
  }

  lemma LexedSymbol(s: string, i: nat, w: Word)
    requires w in FIXED && w !in KEYWORDS && SpelledAt(s, i, w.text)
    ensures TokenAt(s, i) == Scan(Token(w.kind, w.text, i), i + |w.text|) && !IsKeyword(w.kind)
  {
    hide NameKind, SpanEnd, StringEnd, StringText;
    assert s[i + 0] == w.text[0];
    if |w.text| > 1 { assert s[i + 1] == w.text[1]; }
  }

  // ---- spellings ----

  /** The ways a word may be spelled: keywords in any case, strings between quotes that fit. */
  ghost predicate Spells(t: string, w: Word) {
    if w in KEYWORDS then Upper(t) == w.text
    else if w.kind == StringLiteral then
      exists quote :: (quote == '\'' || quote == '"') && Quotable(w.text, quote) && t == Quote(w.text, quote)
    else t == w.text
  }

  lemma LexedWord(s: string, i: nat, t: string, w: Word)
    requires Lexable(w) && Spells(t, w) && SpelledAt(s, i, t)
    ensures AsWord(TokenAt(s, i).token) == w && TokenAt(s, i).next == i + |t| && !IsSpace(s[i])
  {
    hide NameKind, SpanEnd, StringEnd, StringText, TokenAt, SymbolAt, Quotable, Upper;
    assert s[i + 0] == t[0];
    if w in KEYWORDS {
      KeywordSpelling(w);
      KeywordInAnyCase(t, w);
      LexedNameLike(s, i, t);
    } else if w.kind == Identifier {
      LexedNameLike(s, i, w.text);
    } else if w.kind == NumberLiteral {
      LexedNumber(s, i, w.text);
    } else if w.kind == StringLiteral {
      var quote :| (quote == '\'' || quote == '"') && Quotable(w.text, quote) && t == Quote(w.text, quote);
      LexedString(s, i, w.text, quote);
    } else {
      LexedSymbol(s, i, w);
    }
  }

  /** A spelled word with the white space before it. */
  datatype Part = Part(gap: string, text: string)

  predicate Blank(gap: string) {
    forall k :: 0 <= k < |gap| ==> IsSpace(gap[k])
  }

  /** Any spelling of each word, with any white space between them. */
  ghost predicate Respells(parts: seq<Part>, ws: seq<Word>) {
    && |parts| == |ws|
    && (forall i :: 0 <= i < |ws| ==> Blank(parts[i].gap) && Spells(parts[i].text, ws[i]))
    && forall i :: 0 < i < |ws| ==> parts[i].gap != ""
  }

  function Join(parts: seq<Part>, end: string): string {
    if parts == [] then end else parts[0].gap + (parts[0].text + Join(parts[1..], end))
  }

  // ---- all words ----

  function AsWords(ts: seq<Token>): (ws: seq<Word>)
    ensures |ws| == |ts|
  {
    seq(|ts|, i requires 0 <= i < |ts| => AsWord(ts[i]))
  }

  lemma {:induction false} LexSkipsBlank(s: string, i: nat, j: nat)
    requires i <= j <= |s| && forall k :: i <= k < j ==> IsSpace(s[k])
    ensures Lex(s, i) == Lex(s, j)
    decreases j - i
  {
    hide TokenAt;
    if i < j {
      assert SpanEnd(s, SPACE, i) == SpanEnd(s, SPACE, i + 1);
      LexSkipsBlank(s, i + 1, j);
    }
  }

  lemma LexStep(s: string, i: nat)
    requires i < |s| && !IsSpace(s[i])
    ensures Lex(s, i) == [TokenAt(s, i).token] + Lex(s, TokenAt(s, i).next)
  {
    hide TokenAt;
  }

  /** Any spelling of the words lexes back to them. */
  lemma {:induction false} LexTrip(s: string, i: nat, parts: seq<Part>, end: string, ws: seq<Word>)
    requires i <= |s| && s[i..] == Join(parts, end) && Respells(parts, ws) && Blank(end) && AllLexable(ws)
    ensures AsWords(Lex(s, i)) == ws + [Word(Eof, "")]
    decreases |ws|
  {
    hide TokenAt, Lexable, Lex, Spells, AsWords, Blank;
    if ws == [] {
      BlankStands(s, i, |s|, end);
      LexSkipsBlank(s, i, |s|);
      AtEnd(s);
      EofWord(|s|);
    } else {
      var j := WordTrip(s, i, parts, end, ws);
      FewerParts(parts, ws);
      var next := j + |parts[0].text|;
      LexTrip(s, next, parts[1..], end, ws[1..]);
      AsWordsStep(TokenAt(s, j).token, Lex(s, next));
      assert ws == [ws[0]] + ws[1..];
    }
  }

  /** The first word is lexed at j. */
  lemma WordTrip(s: string, i: nat, parts: seq<Part>, end: string, ws: seq<Word>) returns (j: nat)
    requires i <= |s| && s[i..] == Join(parts, end) && Respells(parts, ws) && Blank(end) && AllLexable(ws) && ws != []
    ensures var next := j + |parts[0].text|;
      && j < |s| && next <= |s| && s[next..] == Join(parts[1..], end)
      && AsWord(TokenAt(s, j).token) == ws[0] && Lex(s, i) == [TokenAt(s, j).token] + Lex(s, next)
  {
    hide TokenAt, Lexable, Lex, SpelledAt, Spells, AsWord, Blank;
    var gap, t, rest := parts[0].gap, parts[0].text, Join(parts[1..], end);
    j := i + |gap|;
    assert Lexable(ws[0]) && Spells(t, ws[0]) && Blank(gap);
    NonEmptySpelling(t, ws[0]);
    PartStands(s, i, gap, t, rest);
    BlankStands(s, i, j, gap);
    LexSkipsBlank(s, i, j);
    RestIsBlank(parts[1..], end, ws[1..]);
    WordStands(s, j, t, rest);
    LexedWord(s, j, t, ws[0]);
    SpelledInside(s, j, t);
    LexStep(s, j);
  }

  lemma EofWord(i: nat)
    ensures AsWords([Token(Eof, "", i)]) == [] + [Word(Eof, "")]
  {
  }

  lemma SpelledInside(s: string, i: nat, t: string)
    requires SpelledAt(s, i, t)
    ensures i < |s|
  {
  }

  lemma FewerParts(parts: seq<Part>, ws: seq<Word>)
    requires Respells(parts, ws) && ws != [] && AllLexable(ws)
    ensures Respells(parts[1..], ws[1..]) && AllLexable(ws[1..])
  {
    hide Spells, Blank, Lexable;
  }

  /** What follows a word begins with white space or is nothing. */
  lemma RestIsBlank(parts: seq<Part>, end: string, ws: seq<Word>)
    requires |parts| == |ws| && Blank(end)
    requires forall i :: 0 <= i < |ws| ==> Blank(parts[i].gap) && parts[i].gap != ""
    ensures Join(parts, end) != "" ==> IsSpace(Join(parts, end)[0])
  {
    if parts != [] { assert parts[0].gap != "" && Blank(parts[0].gap); }
  }

  lemma BlankStands(s: string, i: nat, j: nat, gap: string)
    requires i <= j <= |s| && s[i..j] == gap && Blank(gap)
    ensures forall k :: i <= k < j ==> IsSpace(s[k])
  {
    forall k | i <= k < j ensures IsSpace(s[k]) { assert s[i..j][k - i] == s[k]; }
  }

  lemma PartStands(s: string, i: nat, gap: string, t: string, rest: string)
    requires i <= |s| && s[i..] == gap + (t + rest)
    ensures i + |gap| + |t| <= |s| && s[i..i + |gap|] == gap
    ensures s[i + |gap|..] == t + rest && s[i + |gap| + |t|..] == rest
  {
    var all := gap + (t + rest);
    assert |s[i..]| == |all|;
    assert s[i..i + |gap|] == s[i..][..|gap|] == all[..|gap|];
    assert s[i + |gap|..] == s[i..][|gap|..] == all[|gap|..];
    assert s[i + |gap| + |t|..] == s[i..][|gap| + |t|..] == all[|gap| + |t|..];
  }

  lemma WordStands(s: string, j: nat, t: string, rest: string)
    requires j <= |s| && s[j..] == t + rest && t != "" && (rest != "" ==> IsSpace(rest[0]))
    ensures SpelledAt(s, j, t)
  {
    var all := t + rest;
    assert |s[j..]| == |all|;
    forall k | 0 <= k < |t| ensures s[j + k] == t[k] { assert s[j..][k] == all[k]; }
    if j + |t| < |s| { assert s[j..][|t|] == all[|t|] == rest[0]; }
  }

  lemma AsWordsStep(t: Token, ts: seq<Token>)
    ensures AsWords([t] + ts) == [AsWord(t)] + AsWords(ts)
  {
  }

  lemma NonEmptySpelling(t: string, w: Word)
    requires Lexable(w) && Spells(t, w)
    ensures t != ""
  {
    if w in KEYWORDS { KeywordSpelling(w); }
  }

  // ---- every word of a statement can be lexed ----

  lemma LexableAppend(a: seq<Word>, b: seq<Word>)
    requires AllLexable(a) && AllLexable(b)
    ensures AllLexable(a + b)
  {
    hide Lexable;
  }

  lemma FixedLexable()
    ensures forall w :: w in FIXED ==> Lexable(w)
  {
  }

  lemma {:induction false} ExprLexable(e: Expr<Lit>)
    requires WellFormedExpr(e)
    ensures AllLexable(ExprWords(e))
    decreases e
  {
    hide IsName, IsNumber, IsQuotable;
    FixedLexable();
    match e
    case ListLiteral(es) =>
      ListLexable(es);
      LexableAppend([LEFT_BRACKET], ListWords(es));
    case MapLiteral(ps) =>
      PropsLexable(ps);
      LexableAppend([LEFT_BRACE], PropsWords(ps));
    case _ =>
  }

  lemma {:induction false} ListLexable(es: seq<Expr<Lit>>)
    requires forall i :: 0 <= i < |es| ==> WellFormedExpr(es[i])
    ensures AllLexable(ListWords(es))
    decreases es
  {
    hide WellFormedExpr, ExprWords;
    FixedLexable();
    if es != [] {
      ExprLexable(es[0]);
      if |es| > 1 {
        ListLexable(es[1..]);
        LexableAppend([COMMA], ListWords(es[1..]));
      }
      LexableAppend(ExprWords(es[0]), ListTail(es[1..]));
    }
  }

  lemma {:induction false} PropsLexable(ps: seq<Prop<Lit>>)
    requires WellFormedProps(ps)
    ensures AllLexable(PropsWords(ps))
    decreases ps
  {
    hide WellFormedExpr, ExprWords, IsName;
    FixedLexable();
    if ps != [] {
      ExprLexable(ps[0].value);
      LexableAppend([Name(ps[0].key), COLON], ExprWords(ps[0].value));
      if |ps| > 1 {
        PropsLexable(ps[1..]);
        LexableAppend([COMMA], PropsWords(ps[1..]));
      }
      LexableAppend(PropWords(ps[0]), PropsTail(ps[1..]));
    }
  }

  lemma HeadLexable(h: Head)
    requires WellFormedHead(h)
    ensures AllLexable(HeadWords(h))
  {
    hide WellFormedProps, PropsWords, IsName, KeysAscend;
    FixedLexable();
    var a, b, c := NameWords(h.variable), LabelWords(h.lbl), BodyWords(h.properties);
    PropsLexable(h.properties);
    LexableAppend([LEFT_BRACE], PropsWords(h.properties));
    LexableAppend(b, c);
    LexableAppend(a, b + c);
  }

  lemma NodeLexable(n: Node<Lit>)
    requires WellFormedHead(NodeHead(n))
    ensures AllLexable(NodeWords(n))
  {
    hide WellFormedHead, HeadWords;
    FixedLexable();
    HeadLexable(NodeHead(n));
    LexableAppend(HeadWords(NodeHead(n)), [RIGHT_PAREN]);
    LexableAppend([LEFT_PAREN], HeadWords(NodeHead(n)) + [RIGHT_PAREN]);
  }

  lemma RelLexable(r: Rel<Lit>)
    requires WellFormedRel(r)
    ensures AllLexable(RelWords(r))
  {
    hide WellFormedHead, HeadWords;
    FixedLexable();
    var h := HeadWords(RelHead(r));
    var end := if r.direction == "->" then ARROW_RIGHT else DASH;
    HeadLexable(RelHead(r));
    LexableAppend(h, [RIGHT_BRACKET]);
    LexableAppend([LEFT_BRACKET], h + [RIGHT_BRACKET]);
    LexableAppend(BracketWords(RelHead(r)), [end]);
    LexableAppend([if r.direction == "<-" then ARROW_LEFT else DASH], BracketWords(RelHead(r)) + [end]);
  }

  lemma {:induction false} HopsLexable(path: Path<Lit>, i: nat)
    requires WellFormedPath(path) && i < |path|
    ensures AllLexable(HopWords(path, i))
    decreases |path| - i
  {
    hide WellFormedHead, WellFormedRel, RelWords, NodeWords, Lexable;
    if i + 1 < |path| {
      assert WellFormedElement(path[i], i == |path| - 1) && WellFormedElement(path[i + 1], i + 1 == |path| - 1);
      RelLexable(path[i].rel.value);
      NodeLexable(path[i + 1].node);
      HopsLexable(path, i + 1);
      LexableAppend(NodeWords(path[i + 1].node), HopWords(path, i + 1));
      LexableAppend(RelWords(path[i].rel.value), NodeWords(path[i + 1].node) + HopWords(path, i + 1));
    }
  }

  lemma {:induction false} PathsLexable(paths: seq<Path<Lit>>)
    requires paths != [] && forall i :: 0 <= i < |paths| ==> WellFormedPath(paths[i])
    ensures AllLexable(PathsWords(paths))
    decreases |paths|
  {
    hide WellFormedHead, NodeWords, HopWords;
    FixedLexable();
    assert WellFormedElement(paths[0][0], 0 == |paths[0]| - 1);
    NodeLexable(paths[0][0].node);
    HopsLexable(paths[0], 0);
    LexableAppend(NodeWords(paths[0][0].node), HopWords(paths[0], 0));
    if |paths| > 1 {
      PathsLexable(paths[1..]);
      LexableAppend([COMMA], PathsWords(paths[1..]));
      LexableAppend(PathWords(paths[0]), [COMMA] + PathsWords(paths[1..]));
    }
  }

  lemma {:induction false} ItemsLexable(items: seq<Item<Lit>>)
    requires items != [] && forall i :: 0 <= i < |items| ==> WellFormedItem(items[i])
    ensures AllLexable(ItemsWords(items))
    decreases |items|
  {
    hide WellFormedExpr, ExprWords, IsName;
    FixedLexable();
    var item := items[0];
    ExprLexable(item.expr);
    LexableAppend(ExprWords(item.expr), if item.alias == "" then [] else [AS, Name(item.alias)]);
    if |items| > 1 {
      ItemsLexable(items[1..]);
      LexableAppend([COMMA], ItemsWords(items[1..]));
      LexableAppend(ItemWords(item), [COMMA] + ItemsWords(items[1..]));
    }
  }

  lemma {:induction false} VariablesLexable(xs: seq<string>)
    requires xs != [] && forall i :: 0 <= i < |xs| ==> IsName(xs[i])
    ensures AllLexable(VariablesWords(xs))
  {
    hide IsName;
    FixedLexable();
    if |xs| > 1 {
      VariablesLexable(xs[1..]);
      LexableAppend([Name(xs[0]), COMMA], VariablesWords(xs[1..]));
    }
  }

  lemma {:induction false} AssignmentsLexable(xs: seq<Assignment<Lit>>)
    requires xs != [] && forall i :: 0 <= i < |xs| ==> WellFormedAssignment(xs[i])
    ensures AllLexable(AssignmentsWords(xs))
    decreases |xs|
  {
    hide WellFormedExpr, ExprWords, IsName;
    FixedLexable();
    ExprLexable(xs[0].value);
    LexableAppend([Name(xs[0].variable), DOT, Name(xs[0].property), EQUALS], ExprWords(xs[0].value));
    if |xs| > 1 {
      AssignmentsLexable(xs[1..]);
      LexableAppend([COMMA], AssignmentsWords(xs[1..]));
      LexableAppend(AssignmentWords(xs[0]), [COMMA] + AssignmentsWords(xs[1..]));
    }
  }

  lemma WhereLexable(c: Clause<Lit>)
    requires c.Where? && WellFormedWhere(c)
    ensures AllLexable(WhereWords(c.condition))
  {
    hide WellFormedExpr, ExprWords;
    FixedLexable();
    if c.condition.Binary? {
      var left, op, right := c.condition.left, c.condition.op, c.condition.right;
      ExprLexable(left);
      ExprLexable(right);
      LexableAppend([Operator(op)], ExprWords(right));
      LexableAppend(ExprWords(left), [Operator(op)] + ExprWords(right));
    } else {
      ExprLexable(c.condition);
    }
  }

  lemma ClauseLexable(c: Clause<Lit>)
    requires WellFormedClause(c)
    ensures AllLexable(ClauseWords(c))
  {
    hide WellFormedPath, WellFormedItem, WellFormedAssignment, WellFormedExpr, IsName, PathsWords,
      ItemsWords, AssignmentsWords, WhereWords, ExprWords, VariablesWords;
    FixedLexable();
    match c
    case Create(paths) => PathsLexable(paths); LexableAppend([CREATE], PathsWords(paths));
    case Match(paths) => PathsLexable(paths); LexableAppend([MATCH], PathsWords(paths));
    case Return(items) => ItemsLexable(items); LexableAppend([RETURN], ItemsWords(items));
    case Where(condition, _, _, _, _) => WhereLexable(c); LexableAppend([WHERE], WhereWords(condition));
    case Delete(xs, detach) =>
      VariablesLexable(xs);
      LexableAppend(if detach then [DETACH, DELETE] else [DELETE], VariablesWords(xs));
    case Set(xs) => AssignmentsLexable(xs); LexableAppend([SET], AssignmentsWords(xs));
    case Unwind(list, alias) =>
      ExprLexable(list);
      LexableAppend(ExprWords(list), [AS, Name(alias)]);
      LexableAppend([UNWIND], ExprWords(list) + [AS, Name(alias)]);
  }

  lemma {:induction false} StatementLexable(stmt: Statement<Lit>)
    requires WellFormed(stmt)
    ensures AllLexable(StatementWords(stmt))
  {
    hide WellFormedClause, ClauseWords, Lexable;
    if stmt != [] {
      ClauseLexable(stmt[0]);
      StatementLexable(stmt[1..]);
      LexableAppend(ClauseWords(stmt[0]), StatementWords(stmt[1..]));
    }
  }

  /** Every text that spells the words of a well-formed statement parses to it: keywords in any case, any
      white space between the words, strings with either quote and with escaped quotes. */
  lemma ParseInvertsSpelling(stmt: Statement<Lit>, parts: seq<Part>, end: string)
    requires WellFormed(stmt) && Respells(parts, StatementWords(stmt)) && Blank(end)
    ensures Parse(Join(parts, end)) == Some(stmt)
  {
    hide Lex, ParseClauses, StatementWords, WellFormedClause, Lexable, Spells, Blank;
    var text := Join(parts, end);
    var ws := StatementWords(stmt);
    StatementLexable(stmt);
    assert text[0..] == text;
    LexTrip(text, 0, parts, end, ws);
    var ts := Lex(text, 0);
    TokensAre(ts, ws);
    ClausesTrip(ts, 0, stmt, []);
    assert [] + stmt == stmt;
  }

  /** The canonical spelling: a space after every word. */
  function Canonical(ws: seq<Word>, first: bool): (parts: seq<Part>)
    ensures |parts| == |ws|
  {
    if ws == [] then [] else [Part(if first then "" else " ", Spelling(ws[0]))] + Canonical(ws[1..], false)
  }

  lemma {:induction false} CanonicalSpells(ws: seq<Word>, first: bool)
    requires AllLexable(ws)
    ensures Respells(Canonical(ws, first), ws)
    ensures ws != [] ==> Join(Canonical(ws, first), " ") == (if first then "" else " ") + Spell(ws)
  {
    hide Lexable, Spells, Spelling;
    if ws != [] {
      CanonicalSpells(ws[1..], false);
      SpellingSpells(ws[0]);
      var rest := Canonical(ws[1..], false);
      var parts := Canonical(ws, first);
      assert parts[1..] == rest && Blank("") && Blank(" ");
      forall i | 0 <= i < |ws| ensures Blank(parts[i].gap) && Spells(parts[i].text, ws[i]) {
        if i > 0 { assert parts[i] == rest[i - 1] && ws[i] == ws[1..][i - 1]; }
      }
      GapsInside(ws[1..], false);
      assert |ws| == 1 ==> Join(rest, " ") == " " && Spell(ws[1..]) == "";
    }
  }

  lemma {:induction false} GapsInside(ws: seq<Word>, first: bool)
    ensures forall i :: 0 <= i < |ws| && (i > 0 || !first) ==> Canonical(ws, first)[i].gap == " "
  {
    hide Spelling;
    if ws != [] { GapsInside(ws[1..], false); }
  }

  lemma SpellingSpells(w: Word)
    requires Lexable(w)
    ensures Spells(Spelling(w), w)
  {
    if w in KEYWORDS {
      KeywordSpelling(w);
      UpperIs(w.text);
    } else if w.kind == StringLiteral {
      assert Quotable(w.text, if Quotable(w.text, '\'') then '\'' else '"');
    }
  }

  /** Parsing inverts rendering: lexing and parsing the canonical text of a well-formed statement gives
      that statement back, nested lists and maps, all three directions and legacy fields included. */
  lemma ParseInvertsRender(stmt: Statement<Lit>)
    requires WellFormed(stmt)
    ensures Parse(Render(stmt)) == Some(stmt)
  {
    hide Lex, ParseClauses, StatementWords, WellFormedClause, Lexable, Parse, Respells;
    var ws := StatementWords(stmt);
    StatementLexable(stmt);
    CanonicalSpells(ws, true);
    if ws == [] {
      assert Join([], "") == "" && Canonical(ws, true) == [];
      ParseInvertsSpelling(stmt, [], "");
    } else {
      ParseInvertsSpelling(stmt, Canonical(ws, true), " ");
      assert "" + Spell(ws) == Spell(ws);
    }
  }

  lemma TokensAre(ts: seq<Token>, ws: seq<Word>)
    requires AsWords(ts) == ws + [Word(Eof, "")]
    ensures At(ts, 0, ws) && KindAt(ts, |ws|) == Eof
  {
    forall i | 0 <= i < |ws| ensures AsWord(ts[0 + i]) == ws[i] {
      assert AsWords(ts)[i] == ws[i];
    }
    assert AsWords(ts)[|ws|] == Word(Eof, "");
  }
}
