/** Canonical query texts: a statement as a sequence of words, each followed by a space. */
module Rendering {
  import opened Bytes
  import opened Ast
  import opened Lexer
  import opened Parsing

  datatype Word = Word(kind: Kind, text: string)

  const LEFT_PAREN := Word(LeftParen, "(")
  const RIGHT_PAREN := Word(RightParen, ")")
  const LEFT_BRACKET := Word(LeftBracket, "[")
  const RIGHT_BRACKET := Word(RightBracket, "]")
  const LEFT_BRACE := Word(LeftBrace, "{")
  const RIGHT_BRACE := Word(RightBrace, "}")
  const COLON := Word(Colon, ":")
  const COMMA := Word(Comma, ",")
  const DOT := Word(Dot, ".")
  const EQUALS := Word(Equals, "=")
  const DASH := Word(Dash, "-")
  const ARROW_RIGHT := Word(ArrowRight, "->")
  const ARROW_LEFT := Word(ArrowLeft, "<-")
  const CREATE := Word(KeywordCreate, "CREATE")
  const MATCH := Word(KeywordMatch, "MATCH")
  const RETURN := Word(KeywordReturn, "RETURN")
  const WHERE := Word(KeywordWhere, "WHERE")
  const DETACH := Word(KeywordDelete, "DETACH")
  const DELETE := Word(KeywordDelete, "DELETE")
  const SET := Word(KeywordSet, "SET")
  const UNWIND := Word(KeywordUnwind, "UNWIND")
  const AS := Word(KeywordAs, "AS")

  const FIXED: set<Word> := {
    LEFT_PAREN, RIGHT_PAREN, LEFT_BRACKET, RIGHT_BRACKET, LEFT_BRACE, RIGHT_BRACE, COLON, COMMA, DOT, EQUALS,
    DASH, ARROW_RIGHT, ARROW_LEFT, Word(LessThan, "<"), Word(LessThan, "<="), Word(GreaterThan, ">"),
    Word(GreaterThan, ">="), Word(GreaterThan, "<>"),
    CREATE, MATCH, RETURN, WHERE, DETACH, DELETE, SET, UNWIND, AS }

  // ---- names and literals ----

  predicate IsName(s: string) {
    && s != "" && (IsAlpha(s[0]) || s[0] == '_')
    && (forall i :: 0 <= i < |s| ==> In(NAME, s[i]))
    && NameKind(s) == Identifier
  }

  predicate IsNumber(s: string) {
    s != "" && IsDigit(s[0]) && forall i :: 0 <= i < |s| ==> In(NUMBER, s[i])
  }

  /** Between two such quotes the text is one string: a quote in it, and a backslash, has a backslash before
      it. */
  predicate Quotable(t: string, quote: char) {
    t == "" || (if t[0] == '\\' then |t| >= 2 && Quotable(t[2..], quote) else t[0] != quote && Quotable(t[1..], quote))
  }

  predicate IsQuotable(s: string) {
    Quotable(s, '\'') || Quotable(s, '"')
  }

  predicate Lexable(w: Word) {
    match w.kind
    case Identifier => IsName(w.text)
    case StringLiteral => IsQuotable(w.text)
    case NumberLiteral => IsNumber(w.text)
    case _ => w in FIXED
  }

  predicate AllLexable(ws: seq<Word>) {
    forall i :: 0 <= i < |ws| ==> Lexable(ws[i])
  }

  function Name(x: string): Word {
    Word(Identifier, x)
  }

  // ---- expressions ----

  predicate WellFormedExpr(e: Expr<Lit>) {
    match e
    case Variable(x) => IsName(x)
    case Literal(l) => if l.isString then IsQuotable(l.text) else IsNumber(l.text)
    case PropertyAccess(x, k) => IsName(x) && IsName(k)
    case ListLiteral(es) => forall i :: 0 <= i < |es| ==> WellFormedExpr(es[i])
    case MapLiteral(ps) => KeysAscend(ps) && WellFormedProps(ps)
    case Binary(_, _, _) => false
  }

  predicate WellFormedProps(ps: seq<Prop<Lit>>) {
    forall i :: 0 <= i < |ps| ==> IsName(ps[i].key) && WellFormedExpr(ps[i].value)
  }

  predicate StartsExpr(k: Kind) {
    k == Identifier || k == StringLiteral || k == NumberLiteral || k == LeftBracket || k == LeftBrace
  }

  function ExprWords(e: Expr<Lit>): (ws: seq<Word>)
    requires WellFormedExpr(e)
    ensures ws != [] && StartsExpr(ws[0].kind)
  {
    match e
    case Variable(x) => [Name(x)]
    case Literal(l) => [Word(if l.isString then StringLiteral else NumberLiteral, l.text)]
    case PropertyAccess(x, k) => [Name(x), DOT, Name(k)]
    case ListLiteral(es) => [LEFT_BRACKET] + ListWords(es)
    case MapLiteral(ps) => [LEFT_BRACE] + PropsWords(ps)
  }

  /** With the closing bracket. */
  function ListWords(es: seq<Expr<Lit>>): (ws: seq<Word>)
    requires forall i :: 0 <= i < |es| ==> WellFormedExpr(es[i])
    ensures ws != []
    decreases es, 0
  {
    if es == [] then [RIGHT_BRACKET] else ExprWords(es[0]) + ListTail(es[1..])
  }

  function ListTail(es: seq<Expr<Lit>>): (ws: seq<Word>)
    requires forall i :: 0 <= i < |es| ==> WellFormedExpr(es[i])
    ensures ws != [] && ws[0] == if es == [] then RIGHT_BRACKET else COMMA
    decreases es, 1
  {
    if es == [] then [RIGHT_BRACKET] else [COMMA] + ListWords(es)
  }

  /** With the closing brace. */
  function PropsWords(ps: seq<Prop<Lit>>): (ws: seq<Word>)
    requires WellFormedProps(ps)
    ensures ws != []
    decreases ps, 0
  {
    if ps == [] then [RIGHT_BRACE] else PropWords(ps[0]) + PropsTail(ps[1..])
  }

  function PropsTail(ps: seq<Prop<Lit>>): (ws: seq<Word>)
    requires WellFormedProps(ps)
    ensures ws != [] && ws[0] == if ps == [] then RIGHT_BRACE else COMMA
    decreases ps, 1
  {
    if ps == [] then [RIGHT_BRACE] else [COMMA] + PropsWords(ps)
  }

  function PropWords(p: Prop<Lit>): (ws: seq<Word>)
    requires WellFormedExpr(p.value)
    ensures |ws| > 2
  {
    [Name(p.key), COLON] + ExprWords(p.value)
  }

  // ---- patterns ----

  predicate IsOptionalName(x: string) {
    x == "" || IsName(x)
  }

  predicate WellFormedHead(h: Head) {
    IsOptionalName(h.variable) && IsOptionalName(h.lbl) && KeysAscend(h.properties) && WellFormedProps(h.properties)
  }

  function NameWords(x: string): (ws: seq<Word>)
    ensures |ws| == if x == "" then 0 else 1
  {
    if x == "" then [] else [Name(x)]
  }

  function LabelWords(lbl: string): (ws: seq<Word>)
    ensures |ws| == if lbl == "" then 0 else 2
  {
    if lbl == "" then [] else [COLON, Name(lbl)]
  }

  function BodyWords(ps: seq<Prop<Lit>>): (ws: seq<Word>)
    requires WellFormedProps(ps)
    ensures ps == [] <==> ws == []
  {
    if ps == [] then [] else [LEFT_BRACE] + PropsWords(ps)
  }

  function HeadWords(h: Head): seq<Word>
    requires WellFormedHead(h)
  {
    NameWords(h.variable) + (LabelWords(h.lbl) + BodyWords(h.properties))
  }

  function NodeHead(n: Node<Lit>): Head {
    Head(n.variable, n.lbl, n.properties)
  }

  function RelHead(r: Rel<Lit>): Head {
    Head(r.variable, r.kind, r.properties)
  }

  predicate WellFormedRel(r: Rel<Lit>) {
    WellFormedHead(RelHead(r)) && (r.direction == "->" || r.direction == "<-" || r.direction == "-")
  }

  function NodeWords(n: Node<Lit>): (ws: seq<Word>)
    requires WellFormedHead(NodeHead(n))
    ensures ws != []
  {
    [LEFT_PAREN] + (HeadWords(NodeHead(n)) + [RIGHT_PAREN])
  }

  function BracketWords(h: Head): (ws: seq<Word>)
    requires WellFormedHead(h)
    ensures ws != []
  {
    [LEFT_BRACKET] + (HeadWords(h) + [RIGHT_BRACKET])
  }

  function RelWords(r: Rel<Lit>): (ws: seq<Word>)
    requires WellFormedRel(r)
    ensures ws != []
  {
    [if r.direction == "<-" then ARROW_LEFT else DASH]
    + (BracketWords(RelHead(r)) + [if r.direction == "->" then ARROW_RIGHT else DASH])
  }

  /** Every element but the last leads on. */
  predicate WellFormedPath(path: Path<Lit>) {
    && path != []
    && forall i :: 0 <= i < |path| ==> WellFormedElement(path[i], i == |path| - 1)
  }

  predicate WellFormedElement(e: Element<Lit>, last: bool) {
    WellFormedHead(NodeHead(e.node)) && if last then e.rel.None? else e.rel.Some? && WellFormedRel(e.rel.value)
  }

  /** The relationships from element i on, with the nodes they lead to. */
  function HopWords(path: Path<Lit>, i: nat): seq<Word>
    requires WellFormedPath(path) && i < |path|
    decreases |path| - i
  {
    if i + 1 == |path| then []
    else RelWords(path[i].rel.value) + (NodeWords(path[i + 1].node) + HopWords(path, i + 1))
  }

  function PathWords(path: Path<Lit>): (ws: seq<Word>)
    requires WellFormedPath(path)
    ensures ws != []
  {
    NodeWords(path[0].node) + HopWords(path, 0)
  }

  function PathsWords(paths: seq<Path<Lit>>): (ws: seq<Word>)
    requires paths != [] && forall i :: 0 <= i < |paths| ==> WellFormedPath(paths[i])
    ensures ws != []
  {
    if |paths| == 1 then PathWords(paths[0]) else PathWords(paths[0]) + ([COMMA] + PathsWords(paths[1..]))
  }

  // ---- clauses ----

  predicate WellFormedItem(item: Item<Lit>) {
    WellFormedExpr(item.expr) && IsOptionalName(item.alias)
  }

  function ItemWords(item: Item<Lit>): (ws: seq<Word>)
    requires WellFormedItem(item)
    ensures ws != []
  {
    ExprWords(item.expr) + if item.alias == "" then [] else [AS, Name(item.alias)]
  }

  function ItemsWords(items: seq<Item<Lit>>): (ws: seq<Word>)
    requires items != [] && forall i :: 0 <= i < |items| ==> WellFormedItem(items[i])
    ensures ws != []
  {
    if |items| == 1 then ItemWords(items[0]) else ItemWords(items[0]) + ([COMMA] + ItemsWords(items[1..]))
  }

  predicate IsOperator(op: string) {
    op == "=" || op == "<" || op == "<=" || op == ">" || op == ">=" || op == "<>"
  }

  function Operator(op: string): Word
    requires IsOperator(op)
  {
    Word(if op == "=" then Equals else if op == "<" || op == "<=" then LessThan else GreaterThan, op)
  }

  /** The legacy fields repeat the comparison of a property and are empty otherwise. */
  predicate WellFormedWhere(c: Clause<Lit>)
    requires c.Where?
  {
    match c.condition
    case Binary(left, op, right) =>
      WellFormedExpr(left) && IsOperator(op) && WellFormedExpr(right) && c == Comparison(left, op, right)
    case _ => WellFormedExpr(c.condition) && c == Where(c.condition, "", "", "", None)
  }

  function WhereWords(condition: Expr<Lit>): (ws: seq<Word>)
    requires match condition
             case Binary(left, op, right) => WellFormedExpr(left) && IsOperator(op) && WellFormedExpr(right)
             case _ => WellFormedExpr(condition)
    ensures ws != []
  {
    match condition
    case Binary(left, op, right) => ExprWords(left) + ([Operator(op)] + ExprWords(right))
    case _ => ExprWords(condition)
  }

  function VariablesWords(xs: seq<string>): (ws: seq<Word>)
    requires xs != []
    ensures ws != []
  {
    if |xs| == 1 then [Name(xs[0])] else [Name(xs[0]), COMMA] + VariablesWords(xs[1..])
  }

  predicate WellFormedAssignment(a: Assignment<Lit>) {
    IsName(a.variable) && IsName(a.property) && WellFormedExpr(a.value)
  }

  function AssignmentWords(a: Assignment<Lit>): (ws: seq<Word>)
    requires WellFormedAssignment(a)
    ensures ws != []
  {
    [Name(a.variable), DOT, Name(a.property), EQUALS] + ExprWords(a.value)
  }

  function AssignmentsWords(xs: seq<Assignment<Lit>>): (ws: seq<Word>)
    requires xs != [] && forall i :: 0 <= i < |xs| ==> WellFormedAssignment(xs[i])
    ensures ws != []
  {
    if |xs| == 1 then AssignmentWords(xs[0]) else AssignmentWords(xs[0]) + ([COMMA] + AssignmentsWords(xs[1..]))
  }

  /** Names are identifiers and no keywords, numbers are digits and dots, strings can be quoted, and no
      clause is empty. */
  predicate WellFormedClause(c: Clause<Lit>) {
    match c
    case Create(paths) => paths != [] && forall i :: 0 <= i < |paths| ==> WellFormedPath(paths[i])
    case Match(paths) => paths != [] && forall i :: 0 <= i < |paths| ==> WellFormedPath(paths[i])
    case Return(items) => items != [] && forall i :: 0 <= i < |items| ==> WellFormedItem(items[i])
    case Where(_, _, _, _, _) => WellFormedWhere(c)
    case Delete(xs, _) => xs != [] && forall i :: 0 <= i < |xs| ==> IsName(xs[i])
    case Set(xs) => xs != [] && forall i :: 0 <= i < |xs| ==> WellFormedAssignment(xs[i])
    case Unwind(list, alias) => WellFormedExpr(list) && IsName(alias)
  }

  predicate StartsClause(k: Kind) {
    k == KeywordCreate || k == KeywordMatch || k == KeywordReturn || k == KeywordWhere || k == KeywordDelete
    || k == KeywordSet || k == KeywordUnwind
  }

  function ClauseWords(c: Clause<Lit>): (ws: seq<Word>)
    requires WellFormedClause(c)
    ensures ws != [] && StartsClause(ws[0].kind)
  {
    match c
    case Create(paths) => [CREATE] + PathsWords(paths)
    case Match(paths) => [MATCH] + PathsWords(paths)
    case Return(items) => [RETURN] + ItemsWords(items)
    case Where(condition, _, _, _, _) => [WHERE] + WhereWords(condition)
    case Delete(xs, detach) => (if detach then [DETACH, DELETE] else [DELETE]) + VariablesWords(xs)
    case Set(xs) => [SET] + AssignmentsWords(xs)
    case Unwind(list, alias) => [UNWIND] + (ExprWords(list) + [AS, Name(alias)])
  }

  predicate WellFormed(stmt: Statement<Lit>) {
    forall i :: 0 <= i < |stmt| ==> WellFormedClause(stmt[i])
  }

  function StatementWords(stmt: Statement<Lit>): seq<Word>
    requires WellFormed(stmt)
  {
    if stmt == [] then [] else ClauseWords(stmt[0]) + StatementWords(stmt[1..])
  }

  // ---- text ----

  function Quote(t: string, quote: char): string {
    [quote] + t + [quote]
  }

  function Spelling(w: Word): string {
    if w.kind == StringLiteral then Quote(w.text, if Quotable(w.text, '\'') then '\'' else '"') else w.text
  }

  function Spell(ws: seq<Word>): string {
    if ws == [] then "" else Spelling(ws[0]) + (" " + Spell(ws[1..]))
  }

  /** The canonical text of a statement. */
  function Render(stmt: Statement<Lit>): string
    requires WellFormed(stmt)
  {
    Spell(StatementWords(stmt))
  }
}
