/** What comes out of the parser, on every input: well-formed statements. With `LexRoundTrip` this says that
    the well-formed statements are exactly what texts with plain strings can mean. */
module ParsedShape {
  import opened Bytes
  import opened Ast
  import opened Lexer
  import opened Parsing
  import opened Rendering
  import opened LexRoundTrip

  /** What the lexer guarantees for a token's text; strings are plain by assumption. */
  predicate GoodToken(t: Token) {
    match t.kind
    case Identifier => IsName(t.text)
    case NumberLiteral => IsNumber(t.text)
    case StringLiteral => IsQuotable(t.text)
    case Equals => IsOperator(t.text) && Operator(t.text).kind == Equals
    case LessThan => IsOperator(t.text)
    case GreaterThan => IsOperator(t.text)
    case _ => true
  }

  predicate GoodTokens(ts: seq<Token>) {
    forall i :: 0 <= i < |ts| ==> GoodToken(ts[i])
  }

  predicate QuotableStrings(ts: seq<Token>) {
    forall i :: 0 <= i < |ts| && ts[i].kind == StringLiteral ==> IsQuotable(ts[i].text)
  }

  lemma TokenIsGood(s: string, i: nat)
    requires i < |s|
    ensures var t := TokenAt(s, i).token; t.kind == StringLiteral || GoodToken(t)
  {
    hide StringEnd, StringText;
    var t := TokenAt(s, i).token;
    if IsAlpha(s[i]) || s[i] == '_' {
      var end := SpanEnd(s, NAME, i + 1);
      assert t.text == s[i..end] && t.text[0] == s[i];
      forall k | 0 <= k < |t.text| ensures In(NAME, t.text[k]) { assert t.text[k] == s[i + k]; }
      hide Upper;
    } else if IsDigit(s[i]) {
      var end := SpanEnd(s, NUMBER, i + 1);
      assert t.text == s[i..end] && t.text[0] == s[i];
      forall k | 0 <= k < |t.text| ensures In(NUMBER, t.text[k]) { assert t.text[k] == s[i + k]; }
    }
  }

  lemma {:induction false} LexedAreGood(s: string, i: nat)
    requires i <= |s| && QuotableStrings(Lex(s, i))
    ensures GoodTokens(Lex(s, i))
    decreases |s| - i
  {
    hide TokenAt, IsQuotable, GoodToken;
    var j := SpanEnd(s, SPACE, i);
    if j == |s| {
      EofIsGood(j);
    } else {
      var t, rest := TokenAt(s, j).token, Lex(s, TokenAt(s, j).next);
      var ts := [t] + rest;
      assert Lex(s, i) == ts;
      TokenIsGood(s, j);
      assert forall k :: 0 <= k < |rest| ==> ts[k + 1] == rest[k];
      LexedAreGood(s, TokenAt(s, j).next);
      assert ts[0] == t;
      if t.kind == StringLiteral { PlainIsGood(t); }
    }
  }

  lemma EofIsGood(p: nat)
    ensures GoodToken(Token(Eof, "", p))
  {
  }

  lemma PlainIsGood(t: Token)
    requires t.kind == StringLiteral && IsQuotable(t.text)
    ensures GoodToken(t)
  {
  }

  lemma GoodAt(ts: seq<Token>, p: nat)
    requires GoodTokens(ts)
    ensures KindAt(ts, p) == Identifier ==> IsName(TextAt(ts, p))
    ensures KindAt(ts, p) == NumberLiteral ==> IsNumber(TextAt(ts, p))
    ensures KindAt(ts, p) == StringLiteral ==> IsQuotable(TextAt(ts, p))
    ensures IsComparison(KindAt(ts, p)) ==> IsOperator(TextAt(ts, p))
  {
    hide IsName, IsNumber, IsQuotable;
    if p < |ts| { assert GoodToken(ts[p]); }
  }

  // ---- expressions ----

  lemma {:induction false} ExprShaped(ts: seq<Token>, p: nat)
    requires GoodTokens(ts) && p <= |ts|
    ensures ParseExpr(ts, p).Some? ==> WellFormedExpr(ParseExpr(ts, p).value.value)
    decreases |ts| - p, 0
  {
    hide GoodTokens, IsName, IsNumber, IsQuotable, ParseList, ParseMap, KeysAscend;
    GoodAt(ts, p);
    GoodAt(ts, p + 2);
    if KindAt(ts, p) == LeftBracket { ListShaped(ts, p + 1, []); }
    if KindAt(ts, p) == LeftBrace {
      EmptyProps();
      MapShaped(ts, p + 1, []);
    }
  }

  predicate AllWellFormed(es: seq<Expr<Lit>>) {
    forall i :: 0 <= i < |es| ==> WellFormedExpr(es[i])
  }

  lemma {:induction false} ListShaped(ts: seq<Token>, p: nat, acc: seq<Expr<Lit>>)
    requires GoodTokens(ts) && p <= |ts| && AllWellFormed(acc)
    ensures ParseList(ts, p, acc).Some? ==> AllWellFormed(ParseList(ts, p, acc).value.value)
    decreases |ts| - p, 1
  {
    hide GoodTokens, WellFormedExpr, ParseExpr;
    if KindAt(ts, p) != RightBracket && ParseExpr(ts, p).Some? {
      ExprShaped(ts, p);
      var e := ParseExpr(ts, p).value;
      if KindAt(ts, e.next) == Comma { ListShaped(ts, e.next + 1, acc + [e.value]); }
    }
  }

  lemma AssignShaped(acc: seq<Prop<Lit>>, key: string, value: Expr<Lit>)
    requires KeysAscend(acc) && WellFormedProps(acc) && IsName(key) && WellFormedExpr(value)
    ensures KeysAscend(Assign(acc, key, value)) && WellFormedProps(Assign(acc, key, value))
  {
    hide IsName, WellFormedExpr, KeysAscend, Assign;
    AssignIsMapUpdate(acc, key, value);
    var r := Assign(acc, key, value);
    forall i | 0 <= i < |r| ensures IsName(r[i].key) && WellFormedExpr(r[i].value) {
      assert r[i] in r;
      if r[i] in acc { var j :| 0 <= j < |acc| && acc[j] == r[i]; }
    }
  }

  lemma {:induction false} MapShaped(ts: seq<Token>, p: nat, acc: seq<Prop<Lit>>)
    requires GoodTokens(ts) && p <= |ts| && KeysAscend(acc) && WellFormedProps(acc)
    ensures ParseMap(ts, p, acc).Some? ==>
      KeysAscend(ParseMap(ts, p, acc).value.value) && WellFormedProps(ParseMap(ts, p, acc).value.value)
    decreases |ts| - p, 1
  {
    hide GoodTokens, WellFormedExpr, WellFormedProps, KeysAscend, ParseEntry, IsName, Assign;
    if KindAt(ts, p) != RightBrace && ParseEntry(ts, p).Some? {
      EntryShaped(ts, p);
      var e := ParseEntry(ts, p).value;
      AssignShaped(acc, e.value.key, e.value.value);
      if KindAt(ts, e.next) == Comma { MapShaped(ts, e.next + 1, Assign(acc, e.value.key, e.value.value)); }
    }
  }

  lemma {:induction false} EntryShaped(ts: seq<Token>, p: nat)
    requires GoodTokens(ts) && p <= |ts| && ParseEntry(ts, p).Some?
    ensures IsName(ParseEntry(ts, p).value.value.key) && WellFormedExpr(ParseEntry(ts, p).value.value.value)
    decreases |ts| - p, 0
  {
    hide GoodTokens, WellFormedExpr, ParseExpr, IsName;
    GoodAt(ts, p);
    ExprShaped(ts, p + 2);
  }

  // ---- patterns ----

  lemma HeadShaped(ts: seq<Token>, p: nat)
    requires GoodTokens(ts) && p <= |ts|
    ensures ParseHead(ts, p).Some? ==> WellFormedHead(ParseHead(ts, p).value.value)
  {
    hide GoodTokens, WellFormedProps, KeysAscend, ParseMap, IsName;
    GoodAt(ts, p);
    GoodAt(ts, p + 1);
    GoodAt(ts, p + 2);
    EmptyProps();
    forall q: nat | q <= |ts| { MapShaped(ts, q, []); }
  }

  lemma EmptyProps()
    ensures KeysAscend([]) && WellFormedProps([]) && WellFormedHead(Head("", "", []))
  {
  }

  lemma NodeShaped(ts: seq<Token>, p: nat)
    requires GoodTokens(ts) && p <= |ts|
    ensures ParseNode(ts, p).Some? ==> WellFormedHead(NodeHead(ParseNode(ts, p).value.value))
  {
    hide GoodTokens, WellFormedHead, ParseHead;
    if p < |ts| { HeadShaped(ts, p + 1); }
  }

  lemma RelShaped(ts: seq<Token>, p: nat)
    requires GoodTokens(ts) && p < |ts| && StartsRel(ts[p].kind)
    ensures ParseRel(ts, p).Some? ==> WellFormedRel(ParseRel(ts, p).value.value)
  {
    hide GoodTokens, WellFormedHead, ParseHead;
    EmptyProps();
    if p + 1 < |ts| { HeadShaped(ts, p + 2); }
  }

  lemma ExtendShaped(path: Path<Lit>, rel: Rel<Lit>, next: Node<Lit>)
    requires WellFormedPath(path) && WellFormedRel(rel) && WellFormedHead(NodeHead(next))
    ensures WellFormedPath(Extend(path, rel, next))
  {
    hide WellFormedHead, WellFormedRel;
    var n := |path| - 1;
    var r := Extend(path, rel, next);
    forall i | 0 <= i < |r| ensures WellFormedElement(r[i], i == |r| - 1) {
      if i <= n { assert WellFormedElement(path[i], i == n); }
    }
  }

  lemma {:induction false} HopsShaped(ts: seq<Token>, p: nat, acc: Path<Lit>)
    requires GoodTokens(ts) && p <= |ts| && WellFormedPath(acc)
    ensures ParseHops(ts, p, acc).Some? ==> WellFormedPath(ParseHops(ts, p, acc).value.value)
    decreases |ts| - p
  {
    hide GoodTokens, WellFormedHead, WellFormedRel, WellFormedPath, ParseRel, ParseNode, Extend;
    assert acc != [] by { NonEmptyPath(acc); }
    if StartsRel(KindAt(ts, p)) && ParseRel(ts, p).Some? {
      RelShaped(ts, p);
      var rel := ParseRel(ts, p).value;
      NodeShaped(ts, rel.next);
      if ParseNode(ts, rel.next).Some? {
        var node := ParseNode(ts, rel.next).value;
        ExtendShaped(acc, rel.value, node.value);
        HopsShaped(ts, node.next, Extend(acc, rel.value, node.value));
      }
    }
  }

  lemma NonEmptyPath(path: Path<Lit>)
    requires WellFormedPath(path)
    ensures path != []
  {
  }

  lemma PathShaped(ts: seq<Token>, p: nat)
    requires GoodTokens(ts) && p <= |ts|
    ensures ParsePath(ts, p).Some? ==> WellFormedPath(ParsePath(ts, p).value.value)
  {
    hide GoodTokens, WellFormedHead, ParseNode, ParseHops;
    NodeShaped(ts, p);
    if ParseNode(ts, p).Some? {
      var node := ParseNode(ts, p).value;
      HopsShaped(ts, node.next, [Element(node.value, None)]);
    }
  }

  // ---- clauses ----

  lemma {:induction false} PathsShaped(ts: seq<Token>, p: nat, acc: seq<Path<Lit>>)
    requires GoodTokens(ts) && p <= |ts| && forall i :: 0 <= i < |acc| ==> WellFormedPath(acc[i])
    ensures ParsePaths(ts, p, acc).Some? ==> WellFormedClause(Create(ParsePaths(ts, p, acc).value.value))
    ensures ParsePaths(ts, p, acc).Some? ==> WellFormedClause(Match(ParsePaths(ts, p, acc).value.value))
    decreases |ts| - p
  {
    hide GoodTokens, WellFormedPath, ParsePath;
    PathShaped(ts, p);
    if ParsePath(ts, p).Some? {
      var path := ParsePath(ts, p).value;
      if KindAt(ts, path.next) == Comma { PathsShaped(ts, path.next + 1, acc + [path.value]); }
    }
  }

  lemma ItemShaped(ts: seq<Token>, p: nat)
    requires GoodTokens(ts) && p <= |ts|
    ensures ParseItem(ts, p).Some? ==> WellFormedItem(ParseItem(ts, p).value.value)
  {
    hide GoodTokens, WellFormedExpr, ParseExpr, IsName;
    ExprShaped(ts, p);
    if ParseExpr(ts, p).Some? { GoodAt(ts, ParseExpr(ts, p).value.next + 1); }
  }

  lemma {:induction false} ItemsShaped(ts: seq<Token>, p: nat, acc: seq<Item<Lit>>)
    requires GoodTokens(ts) && p <= |ts| && forall i :: 0 <= i < |acc| ==> WellFormedItem(acc[i])
    ensures ParseItems(ts, p, acc).Some? ==> WellFormedClause(Return(ParseItems(ts, p, acc).value.value))
    decreases |ts| - p
  {
    hide GoodTokens, WellFormedItem, ParseItem;
    ItemShaped(ts, p);
    if ParseItem(ts, p).Some? {
      var item := ParseItem(ts, p).value;
      if KindAt(ts, item.next) == Comma { ItemsShaped(ts, item.next + 1, acc + [item.value]); }
    }
  }

  lemma WhereShaped(ts: seq<Token>, p: nat)
    requires GoodTokens(ts) && p <= |ts|
    ensures ParseWhere(ts, p).Some? ==> WellFormedClause(ParseWhere(ts, p).value.value)
  {
    hide GoodTokens, ParseExpr;
    ExprShaped(ts, p);
    if ParseExpr(ts, p).Some? {
      var left := ParseExpr(ts, p).value;
      GoodAt(ts, left.next);
      if left.next < |ts| { ExprShaped(ts, left.next + 1); }
    }
  }

  lemma {:induction false} VariablesShaped(ts: seq<Token>, p: nat, acc: seq<string>, detach: bool)
    requires GoodTokens(ts) && p <= |ts| && forall i :: 0 <= i < |acc| ==> IsName(acc[i])
    ensures ParseVariables(ts, p, acc).Some? ==> WellFormedClause(Delete(ParseVariables(ts, p, acc).value.value, detach))
    decreases |ts| - p
  {
    hide GoodTokens, IsName;
    GoodAt(ts, p);
    if KindAt(ts, p) == Identifier && KindAt(ts, p + 1) == Comma {
      VariablesShaped(ts, p + 2, acc + [ts[p].text], detach);
    }
  }

  lemma AssignmentShaped(ts: seq<Token>, p: nat)
    requires GoodTokens(ts) && p <= |ts|
    ensures ParseAssignment(ts, p).Some? ==> WellFormedAssignment(ParseAssignment(ts, p).value.value)
  {
    hide GoodTokens, WellFormedExpr, ParseExpr, IsName;
    GoodAt(ts, p);
    GoodAt(ts, p + 2);
    if p + 4 <= |ts| { ExprShaped(ts, p + 4); }
  }

  lemma {:induction false} AssignmentsShaped(ts: seq<Token>, p: nat, acc: seq<Assignment<Lit>>)
    requires GoodTokens(ts) && p <= |ts| && forall i :: 0 <= i < |acc| ==> WellFormedAssignment(acc[i])
    ensures ParseAssignments(ts, p, acc).Some? ==> WellFormedClause(Set(ParseAssignments(ts, p, acc).value.value))
    decreases |ts| - p
  {
    hide GoodTokens, WellFormedAssignment, ParseAssignment;
    AssignmentShaped(ts, p);
    if ParseAssignment(ts, p).Some? {
      var a := ParseAssignment(ts, p).value;
      if KindAt(ts, a.next) == Comma { AssignmentsShaped(ts, a.next + 1, acc + [a.value]); }
    }
  }

  lemma UnwindShaped(ts: seq<Token>, p: nat)
    requires GoodTokens(ts) && p <= |ts|
    ensures ParseUnwind(ts, p).Some? ==> WellFormedClause(ParseUnwind(ts, p).value.value)
  {
    hide GoodTokens, WellFormedExpr, ParseExpr, IsName;
    ExprShaped(ts, p);
    if ParseExpr(ts, p).Some? { GoodAt(ts, ParseExpr(ts, p).value.next + 1); }
  }

  lemma ClauseShaped(ts: seq<Token>, p: nat)
    requires GoodTokens(ts) && p <= |ts|
    ensures ParseClause(ts, p).Some? ==> WellFormedClause(ParseClause(ts, p).value.value)
  {
    hide GoodTokens, WellFormedClause, ParsePaths, ParseItems, ParseWhere, ParseVariables, ParseAssignments,
      ParseUnwind, Upper;
    match KindAt(ts, p)
    case KeywordCreate => PathsShaped(ts, p + 1, []);
    case KeywordMatch => PathsShaped(ts, p + 1, []);
    case KeywordReturn => ItemsShaped(ts, p + 1, []);
    case KeywordWhere => WhereShaped(ts, p + 1);
    case KeywordDelete =>
      VariablesShaped(ts, p + 1, [], false);
      if p + 1 < |ts| { VariablesShaped(ts, p + 2, [], true); }
    case KeywordSet => AssignmentsShaped(ts, p + 1, []);
    case KeywordUnwind => UnwindShaped(ts, p + 1);
    case _ =>
  }

  lemma {:induction false} ClausesShaped(ts: seq<Token>, p: nat, acc: Statement<Lit>)
    requires GoodTokens(ts) && p <= |ts| && WellFormed(acc)
    ensures ParseClauses(ts, p, acc).Some? ==> WellFormed(ParseClauses(ts, p, acc).value)
    decreases |ts| - p
  {
    hide GoodTokens, WellFormedClause, ParseClause;
    if KindAt(ts, p) != Eof && ParseClause(ts, p).Some? {
      ClauseShaped(ts, p);
      var c := ParseClause(ts, p).value;
      ClausesShaped(ts, c.next, acc + [c.value]);
    }
  }

  /** Whatever a text with plain strings parses to is well formed, and its canonical text means the same. */
  lemma ParsedIsWellFormed(text: string)
    requires QuotableStrings(Lex(text, 0)) && Parse(text).Some?
    ensures WellFormed(Parse(text).value) && Parse(Render(Parse(text).value)) == Parse(text)
  {
    hide Lex, GoodTokens, ParseClauses, WellFormedClause, StatementWords, Render;
    LexedAreGood(text, 0);
    ClausesShaped(Lex(text, 0), 0, []);
    ParseInvertsRender(Parse(text).value);
  }
}
