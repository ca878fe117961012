/** The grammar the parser accepts (parser.cpp): what each construct at a position stands for and where it
    ends, or None where the parser throws. */
module Parsing {
  import opened Bytes
  import opened Ast
  import opened Lexer

  datatype Parsed<+T> = Parsed(value: T, next: nat)

  function KindAt(ts: seq<Token>, p: nat): Kind {
    if p < |ts| then ts[p].kind else Eof
  }

  function TextAt(ts: seq<Token>, p: nat): string {
    if p < |ts| then ts[p].text else ""
  }

  /** `props[key] = value` on a `std::map`. */
  function Assign(props: seq<Prop<Lit>>, key: string, value: Expr<Lit>): seq<Prop<Lit>> {
    if props == [] || Less(key, props[0].key) then [Prop(key, value)] + props
    else if props[0].key == key then [Prop(key, value)] + props[1..]
    else [props[0]] + Assign(props[1..], key, value)
  }

  predicate KeysAscend(props: seq<Prop<Lit>>) {
    forall i, j :: 0 <= i < j < |props| ==> Less(props[i].key, props[j].key)
  }

  /** Keys stay in order and unique; the assigned key has the new value and all others are as before. */
  lemma {:induction false} AssignIsMapUpdate(props: seq<Prop<Lit>>, key: string, value: Expr<Lit>)
    requires KeysAscend(props)
    ensures KeysAscend(Assign(props, key, value))
    ensures forall p :: p in Assign(props, key, value) <==> p == Prop(key, value) || (p in props && p.key != key)
  {
    if props != [] {
      var rest := props[1..];
      assert props == [props[0]] + rest;
      assert forall i :: 0 <= i < |rest| ==> rest[i] == props[i + 1];
      if Less(key, props[0].key) {
        forall p | p in props ensures Less(key, p.key) && p.key != key {
          if p != props[0] { LessTransitive(key, props[0].key, p.key); }
          LessAsymmetric(key, p.key);
        }
      } else if props[0].key == key {
        forall p | p in rest ensures p.key != key { LessAsymmetric(key, p.key); }
      } else {
        LessTotal(key, props[0].key);
        AssignIsMapUpdate(rest, key, value);
        var r := Assign(rest, key, value);
        forall j | 0 <= j < |r| ensures Less(props[0].key, r[j].key) { assert r[j] in r; }
      }
    }
  }

  // ---- expressions ----

  function ParseExpr(ts: seq<Token>, p: nat): (r: Option<Parsed<Expr<Lit>>>)
    requires p <= |ts|
    ensures r.Some? ==> p < r.value.next <= |ts|
    decreases |ts| - p, 0
  {
    match KindAt(ts, p)
    case LeftBracket =>
      (match ParseList(ts, p + 1, [])
       case None => None
       case Some(l) => Some(Parsed(ListLiteral(l.value), l.next)))
    case LeftBrace =>
      (match ParseMap(ts, p + 1, [])
       case None => None
       case Some(m) => Some(Parsed(MapLiteral(m.value), m.next)))
    case Identifier =>
      if KindAt(ts, p + 1) != Dot then Some(Parsed(Variable(ts[p].text), p + 1))
      else if KindAt(ts, p + 2) != Identifier then None
      else Some(Parsed(PropertyAccess(ts[p].text, ts[p + 2].text), p + 3))
    case StringLiteral => Some(Parsed(Literal(Lit(ts[p].text, true)), p + 1))
    case NumberLiteral => Some(Parsed(Literal(Lit(ts[p].text, false)), p + 1))
    case _ => None
  }

  /** Elements up to and with the closing bracket; a comma may come before it. */
  function ParseList(ts: seq<Token>, p: nat, acc: seq<Expr<Lit>>): (r: Option<Parsed<seq<Expr<Lit>>>>)
    requires p <= |ts|
    ensures r.Some? ==> p < r.value.next <= |ts|
    decreases |ts| - p, 1
  {
    if KindAt(ts, p) == RightBracket then Some(Parsed(acc, p + 1)) else
    match ParseExpr(ts, p)
    case None => None
    case Some(e) =>
      match KindAt(ts, e.next)
      case Comma => ParseList(ts, e.next + 1, acc + [e.value])
      case RightBracket => Some(Parsed(acc + [e.value], e.next + 1))
      case _ => None
  }

  function ParseEntry(ts: seq<Token>, p: nat): (r: Option<Parsed<Prop<Lit>>>)
    requires p <= |ts|
    ensures r.Some? ==> p < r.value.next <= |ts|
    decreases |ts| - p, 0
  {
    if KindAt(ts, p) != Identifier || KindAt(ts, p + 1) != Colon then None else
    match ParseExpr(ts, p + 2)
    case None => None
    case Some(e) => Some(Parsed(Prop(ts[p].text, e.value), e.next))
  }

  /** Entries up to and with the closing brace. */
  function ParseMap(ts: seq<Token>, p: nat, acc: seq<Prop<Lit>>): (r: Option<Parsed<seq<Prop<Lit>>>>)
    requires p <= |ts|
    ensures r.Some? ==> p < r.value.next <= |ts|
    decreases |ts| - p, 1
  {
    if KindAt(ts, p) == RightBrace then Some(Parsed(acc, p + 1)) else
    match ParseEntry(ts, p)
    case None => None
    case Some(e) =>
      match KindAt(ts, e.next)
      case Comma => ParseMap(ts, e.next + 1, Assign(acc, e.value.key, e.value.value))
      case RightBrace => Some(Parsed(Assign(acc, e.value.key, e.value.value), e.next + 1))
      case _ => None
  }

  // ---- patterns ----

  /** What nodes and relationships have between their brackets: variable, label and properties. */
  datatype Head = Head(variable: string, lbl: string, properties: seq<Prop<Lit>>)

  function ParseHead(ts: seq<Token>, p: nat): (r: Option<Parsed<Head>>)
    requires p <= |ts|
    ensures r.Some? ==> p <= r.value.next <= |ts|
  {
    var named := KindAt(ts, p) == Identifier;
    var p1 := if named then p + 1 else p;
    var colon := KindAt(ts, p1) == Colon;
    var labelled := colon && KindAt(ts, p1 + 1) == Identifier;
    var p2 := if labelled then p1 + 2 else if colon then p1 + 1 else p1;
    var head := Head(if named then ts[p].text else "", if labelled then ts[p1 + 1].text else "", []);
    if KindAt(ts, p2) != LeftBrace then Some(Parsed(head, p2)) else
    match ParseMap(ts, p2 + 1, [])
    case None => None
    case Some(m) => Some(Parsed(head.(properties := m.value), m.next))
  }

  function ParseNode(ts: seq<Token>, p: nat): (r: Option<Parsed<Node<Lit>>>)
    requires p <= |ts|
    ensures r.Some? ==> p < r.value.next <= |ts|
  {
    if KindAt(ts, p) != LeftParen then None else
    match ParseHead(ts, p + 1)
    case None => None
    case Some(h) =>
      if KindAt(ts, h.next) != RightParen then None
      else Some(Parsed(Node(h.value.variable, h.value.lbl, h.value.properties), h.next + 1))
  }

  /** The bracketed part of a relationship is optional. */
  function ParseRelHead(ts: seq<Token>, p: nat): (r: Option<Parsed<Head>>)
    requires p <= |ts|
    ensures r.Some? ==> p <= r.value.next <= |ts|
  {
    if KindAt(ts, p) != LeftBracket then Some(Parsed(Head("", "", []), p)) else
    match ParseHead(ts, p + 1)
    case None => None
    case Some(h) =>
      if KindAt(ts, h.next) != RightBracket then None else Some(Parsed(h.value, h.next + 1))
  }

  predicate StartsRel(k: Kind) {
    k == Dash || k == ArrowLeft
  }

  function ParseRel(ts: seq<Token>, p: nat): (r: Option<Parsed<Rel<Lit>>>)
    requires p < |ts| && StartsRel(ts[p].kind)
    ensures r.Some? ==> p < r.value.next <= |ts|
  {
    match ParseRelHead(ts, p + 1)
    case None => None
    case Some(h) =>
      var end := KindAt(ts, h.next);
      var direction := if ts[p].kind == ArrowLeft then "<-" else if end == ArrowRight then "->" else "-";
      Some(Parsed(Rel(h.value.variable, h.value.lbl, direction, h.value.properties),
                  if end == ArrowRight || end == Dash then h.next + 1 else h.next))
  }

  /** `path.elements.back().relationship = rel`, then the next node is appended. */
  function Extend(path: Path<Lit>, rel: Rel<Lit>, next: Node<Lit>): Path<Lit>
    requires path != []
  {
    var n := |path| - 1;
    path[n := Element(path[n].node, Some(rel))] + [Element(next, None)]
  }

  function ParseHops(ts: seq<Token>, p: nat, acc: Path<Lit>): (r: Option<Parsed<Path<Lit>>>)
    requires p <= |ts| && acc != []
    ensures r.Some? ==> p <= r.value.next <= |ts|
    decreases |ts| - p
  {
    if !StartsRel(KindAt(ts, p)) then Some(Parsed(acc, p)) else
    match ParseRel(ts, p)
    case None => None
    case Some(rel) =>
      match ParseNode(ts, rel.next)
      case None => None
      case Some(node) => ParseHops(ts, node.next, Extend(acc, rel.value, node.value))
  }

  function ParsePath(ts: seq<Token>, p: nat): (r: Option<Parsed<Path<Lit>>>)
    requires p <= |ts|
    ensures r.Some? ==> p < r.value.next <= |ts|
  {
    match ParseNode(ts, p)
    case None => None
    case Some(node) => ParseHops(ts, node.next, [Element(node.value, None)])
  }

  // ---- clauses ----

  function ParsePaths(ts: seq<Token>, p: nat, acc: seq<Path<Lit>>): (r: Option<Parsed<seq<Path<Lit>>>>)
    requires p <= |ts|
    ensures r.Some? ==> p < r.value.next <= |ts|
    decreases |ts| - p
  {
    match ParsePath(ts, p)
    case None => None
    case Some(path) =>
      if KindAt(ts, path.next) == Comma then ParsePaths(ts, path.next + 1, acc + [path.value])
      else Some(Parsed(acc + [path.value], path.next))
  }

  /** AS without a name after it is dropped. */
  function ParseItem(ts: seq<Token>, p: nat): (r: Option<Parsed<Item<Lit>>>)
    requires p <= |ts|
    ensures r.Some? ==> p < r.value.next <= |ts|
  {
    match ParseExpr(ts, p)
    case None => None
    case Some(e) =>
      if KindAt(ts, e.next) != KeywordAs then Some(Parsed(Item(e.value, ""), e.next))
      else if KindAt(ts, e.next + 1) != Identifier then Some(Parsed(Item(e.value, ""), e.next + 1))
      else Some(Parsed(Item(e.value, ts[e.next + 1].text), e.next + 2))
  }

  function ParseItems(ts: seq<Token>, p: nat, acc: seq<Item<Lit>>): (r: Option<Parsed<seq<Item<Lit>>>>)
    requires p <= |ts|
    ensures r.Some? ==> p < r.value.next <= |ts|
    decreases |ts| - p
  {
    match ParseItem(ts, p)
    case None => None
    case Some(item) =>
      if KindAt(ts, item.next) == Comma then ParseItems(ts, item.next + 1, acc + [item.value])
      else Some(Parsed(acc + [item.value], item.next))
  }

  /** The legacy fields are filled in for comparisons of a property. */
  function Comparison(left: Expr<Lit>, op: string, right: Expr<Lit>): Clause<Lit> {
    if left.PropertyAccess?
    then Where(Binary(left, op, right), left.variable, left.key, op, Some(right))
    else Where(Binary(left, op, right), "", "", "", None)
  }

  predicate IsComparison(k: Kind) {
    k == Equals || k == LessThan || k == GreaterThan
  }

  function ParseWhere(ts: seq<Token>, p: nat): (r: Option<Parsed<Clause<Lit>>>)
    requires p <= |ts|
    ensures r.Some? ==> p < r.value.next <= |ts|
  {
    match ParseExpr(ts, p)
    case None => None
    case Some(left) =>
      if !IsComparison(KindAt(ts, left.next)) then Some(Parsed(Where(left.value, "", "", "", None), left.next)) else
      match ParseExpr(ts, left.next + 1)
      case None => None
      case Some(right) => Some(Parsed(Comparison(left.value, ts[left.next].text, right.value), right.next))
  }

  function ParseVariables(ts: seq<Token>, p: nat, acc: seq<string>): (r: Option<Parsed<seq<string>>>)
    requires p <= |ts|
    ensures r.Some? ==> p < r.value.next <= |ts|
    decreases |ts| - p
  {
    if KindAt(ts, p) != Identifier then None
    else if KindAt(ts, p + 1) == Comma then ParseVariables(ts, p + 2, acc + [ts[p].text])
    else Some(Parsed(acc + [ts[p].text], p + 1))
  }

  function ParseAssignment(ts: seq<Token>, p: nat): (r: Option<Parsed<Assignment<Lit>>>)
    requires p <= |ts|
    ensures r.Some? ==> p < r.value.next <= |ts|
  {
    if KindAt(ts, p) != Identifier || KindAt(ts, p + 1) != Dot || KindAt(ts, p + 2) != Identifier
       || KindAt(ts, p + 3) != Equals
    then None else
    match ParseExpr(ts, p + 4)
    case None => None
    case Some(e) => Some(Parsed(Assignment(ts[p].text, ts[p + 2].text, e.value), e.next))
  }

  function ParseAssignments(ts: seq<Token>, p: nat, acc: seq<Assignment<Lit>>): (r: Option<Parsed<seq<Assignment<Lit>>>>)
    requires p <= |ts|
    ensures r.Some? ==> p < r.value.next <= |ts|
    decreases |ts| - p
  {
    match ParseAssignment(ts, p)
    case None => None
    case Some(a) =>
      if KindAt(ts, a.next) == Comma then ParseAssignments(ts, a.next + 1, acc + [a.value])
      else Some(Parsed(acc + [a.value], a.next))
  }

  /** DETACH and DELETE are tokens of one kind; only the spelling DETACH asks for a second one. */
  function ParseDelete(ts: seq<Token>, p: nat): (r: Option<Parsed<Clause<Lit>>>)
    requires p < |ts|
    ensures r.Some? ==> p < r.value.next <= |ts|
  {
    var detach := Upper(ts[p].text) == "DETACH";
    if detach && KindAt(ts, p + 1) != KeywordDelete then None else
    match ParseVariables(ts, if detach then p + 2 else p + 1, [])
    case None => None
    case Some(xs) => Some(Parsed(Delete(xs.value, detach), xs.next))
  }

  function ParseUnwind(ts: seq<Token>, p: nat): (r: Option<Parsed<Clause<Lit>>>)
    requires p <= |ts|
    ensures r.Some? ==> p < r.value.next <= |ts|
  {
    match ParseExpr(ts, p)
    case None => None
    case Some(e) =>
      if KindAt(ts, e.next) != KeywordAs || KindAt(ts, e.next + 1) != Identifier then None
      else Some(Parsed(Unwind(e.value, ts[e.next + 1].text), e.next + 2))
  }

  function ParseClause(ts: seq<Token>, p: nat): (r: Option<Parsed<Clause<Lit>>>)
    requires p <= |ts|
    ensures r.Some? ==> p < r.value.next <= |ts|
  {
    match KindAt(ts, p)
    case KeywordCreate =>
      (match ParsePaths(ts, p + 1, []) case None => None case Some(r) => Some(Parsed(Create(r.value), r.next)))
    case KeywordMatch =>
      (match ParsePaths(ts, p + 1, []) case None => None case Some(r) => Some(Parsed(Match(r.value), r.next)))
    case KeywordReturn =>
      (match ParseItems(ts, p + 1, []) case None => None case Some(r) => Some(Parsed(Return(r.value), r.next)))
    case KeywordWhere => ParseWhere(ts, p + 1)
    case KeywordDelete => ParseDelete(ts, p)
    case KeywordSet =>
      (match ParseAssignments(ts, p + 1, []) case None => None case Some(r) => Some(Parsed(Set(r.value), r.next)))
    case KeywordUnwind => ParseUnwind(ts, p + 1)
    case _ => None
  }

  /** Clauses up to the end marker. Every clause takes at least one token. */
  function ParseClauses(ts: seq<Token>, p: nat, acc: Statement<Lit>): Option<Statement<Lit>>
    requires p <= |ts|
    decreases |ts| - p
  {
    if KindAt(ts, p) == Eof then Some(acc) else
    match ParseClause(ts, p)
    case None => None
    case Some(c) => ParseClauses(ts, c.next, acc + [c.value])
  }

  function Parse(text: string): Option<Statement<Lit>> {
    ParseClauses(Lex(text, 0), 0, [])
  }
}
