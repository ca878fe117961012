/** Parsing inverts rendering. First every construct on its words, then the words in the text. */
module ParseRoundTrip {
  import opened Bytes
  import opened Ast
  import opened Lexer
  import opened Parsing
  import opened Rendering

  predicate IsKeyword(k: Kind) {
    k == KeywordCreate || k == KeywordMatch || k == KeywordReturn || k == KeywordWhere || k == KeywordAs
    || k == KeywordDelete || k == KeywordSet || k == KeywordUnwind
  }

  /** The word a token is: for a keyword the case does not matter. */
  function AsWord(t: Token): Word {
    Word(t.kind, if IsKeyword(t.kind) then Upper(t.text) else t.text)
  }

  /** The words stand in the tokens at position p. */
  ghost predicate At(ts: seq<Token>, p: nat, ws: seq<Word>) {
    p + |ws| <= |ts| && forall i :: 0 <= i < |ws| ==> AsWord(ts[p + i]) == ws[i]
  }

  lemma AtSplit(ts: seq<Token>, p: nat, a: seq<Word>, b: seq<Word>)
    requires At(ts, p, a + b)
    ensures At(ts, p, a) && At(ts, p + |a|, b)
  {
    forall i | 0 <= i < |a| ensures AsWord(ts[p + i]) == a[i] { assert (a + b)[i] == a[i]; }
    forall i | 0 <= i < |b| ensures AsWord(ts[p + |a| + i]) == b[i] { assert (a + b)[|a| + i] == b[i]; }
  }

  lemma AtFirst(ts: seq<Token>, p: nat, ws: seq<Word>)
    requires At(ts, p, ws) && ws != []
    ensures p < |ts| && KindAt(ts, p) == ws[0].kind
  {
    assert AsWord(ts[p + 0]) == ws[0];
  }

  lemma AtWord(ts: seq<Token>, p: nat, ws: seq<Word>, i: nat)
    requires At(ts, p, ws) && i < |ws|
    ensures p + i < |ts| && KindAt(ts, p + i) == ws[i].kind
  {
  }

  /** The text of anything but a keyword. */
  lemma AtText(ts: seq<Token>, p: nat, ws: seq<Word>, i: nat)
    requires At(ts, p, ws) && i < |ws| && !IsKeyword(ws[i].kind)
    ensures TextAt(ts, p + i) == ws[i].text
  {
    hide Upper;
    assert AsWord(ts[p + i]) == ws[i];
  }

  /** The keyword at p in capitals. */
  lemma AtKeyword(ts: seq<Token>, p: nat, ws: seq<Word>)
    requires At(ts, p, ws) && ws != [] && IsKeyword(ws[0].kind)
    ensures p < |ts| && Upper(ts[p].text) == ws[0].text
  {
    assert AsWord(ts[p + 0]) == ws[0];
  }

  lemma AtPair(ts: seq<Token>, p: nat, a: seq<Word>, b: seq<Word>)
    requires At(ts, p, a + b) && b != []
    ensures At(ts, p, a) && At(ts, p + |a|, b) && |a + b| == |a| + |b|
    ensures KindAt(ts, p + |a|) == b[0].kind
  {
    hide At;
    AtSplit(ts, p, a, b);
    AtFirst(ts, p + |a|, b);
  }

  lemma AtCons(ts: seq<Token>, p: nat, w: Word, ws: seq<Word>)
    requires At(ts, p, [w] + ws)
    ensures p < |ts| && KindAt(ts, p) == w.kind
    ensures At(ts, p + 1, ws) && |[w] + ws| == 1 + |ws|
  {
    hide At;
    AtSplit(ts, p, [w], ws);
    AtFirst(ts, p, [w]);
  }

  // ---- expressions ----

  lemma {:induction false} ExprTrip(ts: seq<Token>, p: nat, e: Expr<Lit>)
    requires WellFormedExpr(e) && At(ts, p, ExprWords(e)) && KindAt(ts, p + |ExprWords(e)|) != Dot
    ensures ParseExpr(ts, p) == Some(Parsed(e, p + |ExprWords(e)|))
    decreases e, 1
  {
    hide At, WellFormedExpr, ExprWords, ParseExpr;
    if e.ListLiteral? {
      ListExprTrip(ts, p, e);
    } else if e.MapLiteral? {
      MapExprTrip(ts, p, e);
    } else {
      LeafTrip(ts, p, e);
    }
  }

  lemma {:induction false} ListExprTrip(ts: seq<Token>, p: nat, e: Expr<Lit>)
    requires e.ListLiteral? && WellFormedExpr(e) && At(ts, p, ExprWords(e))
    ensures ParseExpr(ts, p) == Some(Parsed(e, p + |ExprWords(e)|))
    decreases e, 0
  {
    hide At, ListWords, ParseExpr, ParseList;
    AtCons(ts, p, LEFT_BRACKET, ListWords(e.elements));
    ListTrip(ts, p + 1, e.elements, []);
    assert [] + e.elements == e.elements;
    Bracketed(ts, p);
  }

  lemma {:induction false} MapExprTrip(ts: seq<Token>, p: nat, e: Expr<Lit>)
    requires e.MapLiteral? && WellFormedExpr(e) && At(ts, p, ExprWords(e))
    ensures ParseExpr(ts, p) == Some(Parsed(e, p + |ExprWords(e)|))
    decreases e, 0
  {
    hide At, PropsWords, ParseExpr, ParseMap;
    AtCons(ts, p, LEFT_BRACE, PropsWords(e.entries));
    assert [] + e.entries == e.entries;
    PropsTrip(ts, p + 1, e.entries, []);
    Bracketed(ts, p);
  }

  /** What brackets and braces open. */
  lemma Bracketed(ts: seq<Token>, p: nat)
    requires p < |ts|
    ensures KindAt(ts, p) == LeftBracket && ParseList(ts, p + 1, []).Some? ==>
      ParseExpr(ts, p) == Some(Parsed(ListLiteral(ParseList(ts, p + 1, []).value.value), ParseList(ts, p + 1, []).value.next))
    ensures KindAt(ts, p) == LeftBrace && ParseMap(ts, p + 1, []).Some? ==>
      ParseExpr(ts, p) == Some(Parsed(MapLiteral(ParseMap(ts, p + 1, []).value.value), ParseMap(ts, p + 1, []).value.next))
  {
    hide ParseList, ParseMap;
  }

  lemma LeafTrip(ts: seq<Token>, p: nat, e: Expr<Lit>)
    requires !e.ListLiteral? && !e.MapLiteral?
    requires WellFormedExpr(e) && At(ts, p, ExprWords(e)) && KindAt(ts, p + |ExprWords(e)|) != Dot
    ensures ParseExpr(ts, p) == Some(Parsed(e, p + |ExprWords(e)|))
  {
    hide At, ParseExpr, IsName, IsNumber, IsQuotable;
    match e
    case Variable(x) => FirstTrip(ts, p, Name(x)); ReadLeaf(ts, p);
    case Literal(l) => FirstTrip(ts, p, ExprWords(e)[0]); ReadLeaf(ts, p);
    case PropertyAccess(x, k) => AccessTrip(ts, p, x, k); ReadLeaf(ts, p);
  }

  lemma FirstTrip(ts: seq<Token>, p: nat, w: Word)
    requires At(ts, p, [w]) && (w.kind == Identifier || w.kind == StringLiteral || w.kind == NumberLiteral)
    ensures p < |ts| && KindAt(ts, p) == w.kind && TextAt(ts, p) == w.text
  {
    hide At;
    AtFirst(ts, p, [w]);
    AtText(ts, p, [w], 0);
  }

  lemma AccessTrip(ts: seq<Token>, p: nat, x: string, k: string)
    requires At(ts, p, [Name(x), DOT, Name(k)])
    ensures p < |ts| && KindAt(ts, p) == Identifier && KindAt(ts, p + 1) == Dot && KindAt(ts, p + 2) == Identifier
    ensures TextAt(ts, p) == x && TextAt(ts, p + 2) == k
  {
    hide At;
    var ws := [Name(x), DOT, Name(k)];
    AtFirst(ts, p, ws);
    AtText(ts, p, ws, 0);
    AtWord(ts, p, ws, 1);
    AtWord(ts, p, ws, 2);
    AtText(ts, p, ws, 2);
  }

  /** What names and literals parse to. */
  lemma ReadLeaf(ts: seq<Token>, p: nat)
    requires p < |ts|
    ensures KindAt(ts, p) == Identifier && KindAt(ts, p + 1) != Dot ==>
      ParseExpr(ts, p) == Some(Parsed(Variable(TextAt(ts, p)), p + 1))
    ensures KindAt(ts, p) == Identifier && KindAt(ts, p + 1) == Dot && KindAt(ts, p + 2) == Identifier ==>
      ParseExpr(ts, p) == Some(Parsed(PropertyAccess(TextAt(ts, p), TextAt(ts, p + 2)), p + 3))
    ensures KindAt(ts, p) == StringLiteral ==> ParseExpr(ts, p) == Some(Parsed(Literal(Lit(TextAt(ts, p), true)), p + 1))
    ensures KindAt(ts, p) == NumberLiteral ==> ParseExpr(ts, p) == Some(Parsed(Literal(Lit(TextAt(ts, p), false)), p + 1))
  {
    hide ParseList, ParseMap;
  }

  lemma ListEnd(ts: seq<Token>, p: nat, acc: seq<Expr<Lit>>)
    requires p <= |ts| && KindAt(ts, p) == RightBracket
    ensures ParseList(ts, p, acc) == Some(Parsed(acc, p + 1))
  {
  }

  lemma ListStep(ts: seq<Token>, p: nat, acc: seq<Expr<Lit>>, e: Expr<Lit>, next: nat)
    requires p <= |ts| && KindAt(ts, p) != RightBracket && ParseExpr(ts, p) == Some(Parsed(e, next))
    ensures KindAt(ts, next) == Comma ==> ParseList(ts, p, acc) == ParseList(ts, next + 1, acc + [e])
    ensures KindAt(ts, next) == RightBracket ==> ParseList(ts, p, acc) == Some(Parsed(acc + [e], next + 1))
  {
    hide ParseExpr;
  }

  lemma NextElement<T>(acc: seq<T>, xs: seq<T>)
    requires xs != []
    ensures acc + [xs[0]] + xs[1..] == acc + xs
    ensures |xs| == 1 ==> acc + [xs[0]] == acc + xs
  {
  }

  lemma {:induction false} ListTrip(ts: seq<Token>, p: nat, es: seq<Expr<Lit>>, acc: seq<Expr<Lit>>)
    requires (forall i :: 0 <= i < |es| ==> WellFormedExpr(es[i])) && At(ts, p, ListWords(es))
    ensures ParseList(ts, p, acc) == Some(Parsed(acc + es, p + |ListWords(es)|))
    decreases es, 0
  {
    hide At, WellFormedExpr, ParseExpr, ParseList, ExprWords, ListTail;
    if es == [] {
      AtFirst(ts, p, [RIGHT_BRACKET]);
      assert acc + [] == acc;
      ListEnd(ts, p, acc);
    } else {
      var q := p + |ExprWords(es[0])|;
      AtPair(ts, p, ExprWords(es[0]), ListTail(es[1..]));
      AtFirst(ts, p, ExprWords(es[0]));
      ExprTrip(ts, p, es[0]);
      ListStep(ts, p, acc, es[0], q);
      NextElement(acc, es);
      ListTailTrip(ts, q, es[1..], acc + [es[0]]);
    }
  }

  lemma {:induction false} ListTailTrip(ts: seq<Token>, p: nat, es: seq<Expr<Lit>>, acc: seq<Expr<Lit>>)
    requires (forall i :: 0 <= i < |es| ==> WellFormedExpr(es[i])) && At(ts, p, ListTail(es))
    ensures es == [] ==> |ListTail(es)| == 1 && acc + es == acc
    ensures es != [] ==> p < |ts| && ParseList(ts, p + 1, acc) == Some(Parsed(acc + es, p + |ListTail(es)|))
    decreases es, 1
  {
    hide At, WellFormedExpr, ParseList, ListWords;
    if es != [] {
      AtCons(ts, p, COMMA, ListWords(es));
      ListTrip(ts, p + 1, es, acc);
    }
  }

  /** A key after all others is appended. */
  lemma {:induction false} AssignLast(acc: seq<Prop<Lit>>, key: string, value: Expr<Lit>)
    requires forall i :: 0 <= i < |acc| ==> Less(acc[i].key, key)
    ensures Assign(acc, key, value) == acc + [Prop(key, value)]
  {
    if acc != [] {
      LessAsymmetric(acc[0].key, key);
      AssignLast(acc[1..], key, value);
      assert acc == [acc[0]] + acc[1..];
    }
  }

  lemma NextKey(acc: seq<Prop<Lit>>, ps: seq<Prop<Lit>>)
    requires KeysAscend(acc + ps) && ps != []
    ensures Assign(acc, ps[0].key, ps[0].value) == acc + [ps[0]]
    ensures acc + [ps[0]] + ps[1..] == acc + ps
  {
    assert forall i :: 0 <= i < |acc| ==> (acc + ps)[i] == acc[i] && (acc + ps)[|acc|] == ps[0];
    AssignLast(acc, ps[0].key, ps[0].value);
    assert ps[0] == Prop(ps[0].key, ps[0].value);
  }

  lemma MapEnd(ts: seq<Token>, p: nat, acc: seq<Prop<Lit>>)
    requires p <= |ts| && KindAt(ts, p) == RightBrace
    ensures ParseMap(ts, p, acc) == Some(Parsed(acc, p + 1))
  {
  }

  lemma MapStep(ts: seq<Token>, p: nat, acc: seq<Prop<Lit>>, e: Prop<Lit>, next: nat)
    requires p <= |ts| && KindAt(ts, p) == Identifier && ParseEntry(ts, p) == Some(Parsed(e, next))
    ensures KindAt(ts, next) == Comma ==> ParseMap(ts, p, acc) == ParseMap(ts, next + 1, Assign(acc, e.key, e.value))
    ensures KindAt(ts, next) == RightBrace ==>
      ParseMap(ts, p, acc) == Some(Parsed(Assign(acc, e.key, e.value), next + 1))
  {
    hide ParseEntry, Assign;
  }

  lemma {:induction false} PropsTrip(ts: seq<Token>, p: nat, ps: seq<Prop<Lit>>, acc: seq<Prop<Lit>>)
    requires WellFormedProps(ps) && KeysAscend(acc + ps) && At(ts, p, PropsWords(ps))
    ensures ParseMap(ts, p, acc) == Some(Parsed(acc + ps, p + |PropsWords(ps)|))
    decreases ps, 0
  {
    hide At, WellFormedExpr, ParseEntry, ParseMap, PropWords, PropsTail, IsName, Assign, KeysAscend;
    if ps == [] {
      AtFirst(ts, p, [RIGHT_BRACE]);
      assert acc + [] == acc;
      MapEnd(ts, p, acc);
    } else {
      var q := p + |PropWords(ps[0])|;
      AtPair(ts, p, PropWords(ps[0]), PropsTail(ps[1..]));
      EntryTrip(ts, p, ps[0]);
      NextKey(acc, ps);
      MapStep(ts, p, acc, ps[0], q);
      PropsTailTrip(ts, q, ps[1..], acc + [ps[0]]);
    }
  }

  lemma {:induction false} PropsTailTrip(ts: seq<Token>, p: nat, ps: seq<Prop<Lit>>, acc: seq<Prop<Lit>>)
    requires WellFormedProps(ps) && KeysAscend(acc + ps) && At(ts, p, PropsTail(ps))
    ensures ps == [] ==> |PropsTail(ps)| == 1 && acc + ps == acc
    ensures ps != [] ==> p < |ts| && ParseMap(ts, p + 1, acc) == Some(Parsed(acc + ps, p + |PropsTail(ps)|))
    decreases ps, 1
  {
    hide At, WellFormedProps, KeysAscend, ParseMap, PropsWords;
    if ps != [] {
      AtCons(ts, p, COMMA, PropsWords(ps));
      PropsTrip(ts, p + 1, ps, acc);
    }
  }

  lemma EntryTrip(ts: seq<Token>, p: nat, e: Prop<Lit>)
    requires WellFormedExpr(e.value) && At(ts, p, PropWords(e)) && KindAt(ts, p + |PropWords(e)|) != Dot
    ensures KindAt(ts, p) == Identifier && ParseEntry(ts, p) == Some(Parsed(e, p + |PropWords(e)|))
    decreases e, 0
  {
    hide At, WellFormedExpr, ParseExpr, ExprWords, ParseEntry;
    var head := [Name(e.key), COLON];
    assert PropWords(e) == head + ExprWords(e.value) && |PropWords(e)| == 2 + |ExprWords(e.value)|;
    AtSplit(ts, p, head, ExprWords(e.value));
    KeyTrip(ts, p, e.key);
    ExprTrip(ts, p + 2, e.value);
    ReadEntry(ts, p, e, p + 2 + |ExprWords(e.value)|);
  }

  lemma KeyTrip(ts: seq<Token>, p: nat, key: string)
    requires At(ts, p, [Name(key), COLON])
    ensures p + 2 <= |ts| && KindAt(ts, p) == Identifier && TextAt(ts, p) == key && KindAt(ts, p + 1) == Colon
  {
    hide At;
    var head := [Name(key), COLON];
    AtLength(ts, p, head);
    AtFirst(ts, p, head);
    AtText(ts, p, head, 0);
    AtWord(ts, p, head, 1);
  }

  lemma ReadEntry(ts: seq<Token>, p: nat, e: Prop<Lit>, next: nat)
    requires p + 2 <= |ts| && KindAt(ts, p) == Identifier && TextAt(ts, p) == e.key && KindAt(ts, p + 1) == Colon
    requires ParseExpr(ts, p + 2) == Some(Parsed(e.value, next))
    ensures ParseEntry(ts, p) == Some(Parsed(e, next))
  {
    hide ParseExpr;
  }

  // ---- patterns ----

  lemma BodyTrip(ts: seq<Token>, p: nat, ps: seq<Prop<Lit>>)
    requires KeysAscend(ps) && WellFormedProps(ps) && At(ts, p, BodyWords(ps))
    ensures p <= |ts|
    ensures ps != [] ==>
      p < |ts| && KindAt(ts, p) == LeftBrace && ParseMap(ts, p + 1, []) == Some(Parsed(ps, p + |BodyWords(ps)|))
  {
    hide At, KeysAscend, WellFormedProps, PropsWords, ParseMap;
    AtLength(ts, p, BodyWords(ps));
    if ps != [] {
      AtCons(ts, p, LEFT_BRACE, PropsWords(ps));
      assert [] + ps == ps;
      PropsTrip(ts, p + 1, ps, []);
    }
  }

  lemma LabelTrip(ts: seq<Token>, p: nat, lbl: string)
    requires At(ts, p, LabelWords(lbl))
    ensures lbl != "" ==> KindAt(ts, p) == Colon && KindAt(ts, p + 1) == Identifier && TextAt(ts, p + 1) == lbl
  {
    hide At;
    if lbl != "" {
      AtFirst(ts, p, LabelWords(lbl));
      AtWord(ts, p, LabelWords(lbl), 1);
      AtText(ts, p, LabelWords(lbl), 1);
    }
  }

  lemma HeadTrip(ts: seq<Token>, p: nat, h: Head)
    requires WellFormedHead(h) && At(ts, p, HeadWords(h))
    requires KindAt(ts, p + |HeadWords(h)|) == RightParen || KindAt(ts, p + |HeadWords(h)|) == RightBracket
    ensures ParseHead(ts, p) == Some(Parsed(h, p + |HeadWords(h)|))
  {
    hide At, KeysAscend, WellFormedProps, NameWords, LabelWords, BodyWords, ParseMap, IsName;
    var a, b, c := NameWords(h.variable), LabelWords(h.lbl), BodyWords(h.properties);
    AtSplit(ts, p, a, b + c);
    AtSplit(ts, p + |a|, b, c);
    NameTrip(ts, p, h.variable);
    LabelTrip(ts, p + |a|, h.lbl);
    BodyTrip(ts, p + |a| + |b|, h.properties);
  }

  lemma NameTrip(ts: seq<Token>, p: nat, x: string)
    requires At(ts, p, NameWords(x))
    ensures x != "" ==> KindAt(ts, p) == Identifier && TextAt(ts, p) == x
  {
    hide At;
    if x != "" {
      AtFirst(ts, p, NameWords(x));
      AtText(ts, p, NameWords(x), 0);
    }
  }

  lemma NodeTrip(ts: seq<Token>, p: nat, n: Node<Lit>)
    requires WellFormedHead(NodeHead(n)) && At(ts, p, NodeWords(n))
    ensures ParseNode(ts, p) == Some(Parsed(n, p + |NodeWords(n)|))
  {
    hide At, WellFormedHead, HeadWords, ParseHead;
    var h := HeadWords(NodeHead(n));
    AtCons(ts, p, LEFT_PAREN, h + [RIGHT_PAREN]);
    AtPair(ts, p + 1, h, [RIGHT_PAREN]);
    HeadTrip(ts, p + 1, NodeHead(n));
  }

  lemma RelTrip(ts: seq<Token>, p: nat, r: Rel<Lit>)
    requires WellFormedRel(r) && At(ts, p, RelWords(r))
    ensures p < |ts| && StartsRel(ts[p].kind) && ParseRel(ts, p) == Some(Parsed(r, p + |RelWords(r)|))
  {
    hide At, WellFormedHead, BracketWords, ParseRelHead, RelWords, ParseRel;
    RelParts(r);
    var body := BracketWords(RelHead(r));
    AtCons(ts, p, RelStart(r), body + [RelEnd(r)]);
    AtPair(ts, p + 1, body, [RelEnd(r)]);
    BracketTrip(ts, p + 1, RelHead(r));
    ReadRel(ts, p, r, p + 1 + |body|);
  }

  function RelStart(r: Rel<Lit>): Word {
    if r.direction == "<-" then ARROW_LEFT else DASH
  }

  function RelEnd(r: Rel<Lit>): Word {
    if r.direction == "->" then ARROW_RIGHT else DASH
  }

  lemma RelParts(r: Rel<Lit>)
    requires WellFormedRel(r)
    ensures WellFormedHead(RelHead(r))
    ensures RelWords(r) == [RelStart(r)] + (BracketWords(RelHead(r)) + [RelEnd(r)])
    ensures |RelWords(r)| == 2 + |BracketWords(RelHead(r))|
  {
    hide WellFormedHead, BracketWords;
  }

  lemma ReadRel(ts: seq<Token>, p: nat, r: Rel<Lit>, next: nat)
    requires WellFormedRel(r) && p < |ts| && KindAt(ts, p) == RelStart(r).kind && KindAt(ts, next) == RelEnd(r).kind
    requires ParseRelHead(ts, p + 1) == Some(Parsed(RelHead(r), next))
    ensures StartsRel(ts[p].kind) && ParseRel(ts, p) == Some(Parsed(r, next + 1))
  {
    hide WellFormedHead, ParseRelHead;
  }

  lemma BracketTrip(ts: seq<Token>, p: nat, h: Head)
    requires WellFormedHead(h) && At(ts, p, BracketWords(h))
    ensures p <= |ts| && ParseRelHead(ts, p) == Some(Parsed(h, p + |BracketWords(h)|))
  {
    hide At, WellFormedHead, HeadWords, ParseHead;
    AtCons(ts, p, LEFT_BRACKET, HeadWords(h) + [RIGHT_BRACKET]);
    AtPair(ts, p + 1, HeadWords(h), [RIGHT_BRACKET]);
    HeadTrip(ts, p + 1, h);
  }

  /** The path as the loop has built it when it stands at element i. */
  function Built(path: Path<Lit>, i: nat): Path<Lit>
    requires i < |path|
  {
    path[..i] + [Element(path[i].node, None)]
  }

  lemma BuiltNext(path: Path<Lit>, i: nat)
    requires i + 1 < |path| && path[i].rel.Some?
    ensures Extend(Built(path, i), path[i].rel.value, path[i + 1].node) == Built(path, i + 1)
  {
    assert path[i] == Element(path[i].node, path[i].rel);
    assert path[..i + 1] == path[..i] + [path[i]];
  }

  lemma BuiltAll(path: Path<Lit>, i: nat)
    requires i + 1 == |path| && path[i].rel.None?
    ensures Built(path, i) == path
  {
    assert path[i] == Element(path[i].node, None);
  }

  /** The loop takes one relationship and the node after it. */
  lemma ReadHop(ts: seq<Token>, p: nat, acc: Path<Lit>, rel: Rel<Lit>, q: nat, next: Node<Lit>, r: nat)
    requires p < |ts| && StartsRel(ts[p].kind) && acc != [] && q <= |ts|
    requires ParseRel(ts, p) == Some(Parsed(rel, q)) && ParseNode(ts, q) == Some(Parsed(next, r))
    ensures r <= |ts| && ParseHops(ts, p, acc) == ParseHops(ts, r, Extend(acc, rel, next))
  {
    hide ParseRel, ParseNode, Extend, StartsRel;
  }

  lemma PathParts(path: Path<Lit>, i: nat)
    requires WellFormedPath(path) && i < |path|
    ensures i + 1 == |path| ==> path[i].rel.None? && HopWords(path, i) == []
    ensures i + 1 < |path| ==>
      && path[i].rel.Some? && WellFormedRel(path[i].rel.value) && WellFormedHead(NodeHead(path[i + 1].node))
      && HopWords(path, i) == RelWords(path[i].rel.value) + (NodeWords(path[i + 1].node) + HopWords(path, i + 1))
  {
    hide WellFormedHead, WellFormedRel, RelWords, NodeWords;
    assert WellFormedElement(path[i], i == |path| - 1);
    if i + 1 < |path| { assert WellFormedElement(path[i + 1], i + 1 == |path| - 1); }
  }

  lemma {:induction false} HopsTrip(ts: seq<Token>, p: nat, path: Path<Lit>, i: nat)
    requires WellFormedPath(path) && i < |path| && At(ts, p, HopWords(path, i))
    requires !StartsRel(KindAt(ts, p + |HopWords(path, i)|))
    ensures ParseHops(ts, p, Built(path, i)) == Some(Parsed(path, p + |HopWords(path, i)|))
    decreases |path| - i
  {
    hide At, WellFormedHead, WellFormedRel, RelWords, NodeWords, ParseRel, ParseNode, StartsRel, HopWords, Extend, WellFormedPath;
    PathParts(path, i);
    AtLength(ts, p, HopWords(path, i));
    if i + 1 == |path| {
      BuiltAll(path, i);
    } else {
      var rel, next := path[i].rel.value, path[i + 1].node;
      var a, b, c := RelWords(rel), NodeWords(next), HopWords(path, i + 1);
      AtSplit(ts, p, a, b + c);
      AtSplit(ts, p + |a|, b, c);
      RelTrip(ts, p, rel);
      AtLength(ts, p + |a|, b);
      NodeTrip(ts, p + |a|, next);
      ReadHop(ts, p, Built(path, i), rel, p + |a|, next, p + |a| + |b|);
      BuiltNext(path, i);
      HopsTrip(ts, p + |a| + |b|, path, i + 1);
    }
  }

  lemma AtLength(ts: seq<Token>, p: nat, ws: seq<Word>)
    requires At(ts, p, ws)
    ensures p + |ws| <= |ts|
  {
  }

  lemma PathTrip(ts: seq<Token>, p: nat, path: Path<Lit>)
    requires WellFormedPath(path) && At(ts, p, PathWords(path))
    requires !StartsRel(KindAt(ts, p + |PathWords(path)|))
    ensures ParsePath(ts, p) == Some(Parsed(path, p + |PathWords(path)|))
  {
    hide At, WellFormedHead, NodeWords, HopWords, ParseNode, ParseHops;
    assert WellFormedElement(path[0], 0 == |path| - 1);
    AtLength(ts, p, PathWords(path));
    AtSplit(ts, p, NodeWords(path[0].node), HopWords(path, 0));
    NodeTrip(ts, p, path[0].node);
    HopsTrip(ts, p + |NodeWords(path[0].node)|, path, 0);
    assert Built(path, 0) == [Element(path[0].node, None)];
  }

  // ---- clause bodies ----

  /** What can follow a clause. */
  predicate Follows(k: Kind) {
    StartsClause(k) || k == Eof
  }

  lemma {:induction false} PathsTrip(ts: seq<Token>, p: nat, paths: seq<Path<Lit>>, acc: seq<Path<Lit>>)
    requires paths != [] && (forall i :: 0 <= i < |paths| ==> WellFormedPath(paths[i])) && At(ts, p, PathsWords(paths))
    requires Follows(KindAt(ts, p + |PathsWords(paths)|))
    ensures ParsePaths(ts, p, acc) == Some(Parsed(acc + paths, p + |PathsWords(paths)|))
    decreases |paths|
  {
    hide At, WellFormedPath, PathWords, ParsePath;
    AtLength(ts, p, PathsWords(paths));
    NextElement(acc, paths);
    if |paths| == 1 {
      PathTrip(ts, p, paths[0]);
    } else {
      var q := p + |PathWords(paths[0])|;
      AtPair(ts, p, PathWords(paths[0]), [COMMA] + PathsWords(paths[1..]));
      AtCons(ts, q, COMMA, PathsWords(paths[1..]));
      PathTrip(ts, p, paths[0]);
      PathsTrip(ts, q + 1, paths[1..], acc + [paths[0]]);
    }
  }

  lemma ItemTrip(ts: seq<Token>, p: nat, item: Item<Lit>)
    requires WellFormedItem(item) && At(ts, p, ItemWords(item))
    requires Follows(KindAt(ts, p + |ItemWords(item)|)) || KindAt(ts, p + |ItemWords(item)|) == Comma
    ensures ParseItem(ts, p) == Some(Parsed(item, p + |ItemWords(item)|))
  {
    hide At, WellFormedExpr, ExprWords, ParseExpr, IsName, ParseItem, ItemWords;
    ItemParts(item);
    var e, alias := ExprWords(item.expr), AliasWords(item.alias);
    AtLength(ts, p, ItemWords(item));
    AtSplit(ts, p, e, alias);
    if item.alias != "" { AliasTrip(ts, p + |e|, item.alias); }
    ExprTrip(ts, p, item.expr);
    ReadItem(ts, p, item, p + |e|);
  }

  function AliasWords(alias: string): seq<Word> {
    if alias == "" then [] else [AS, Name(alias)]
  }

  lemma ItemParts(item: Item<Lit>)
    requires WellFormedItem(item)
    ensures WellFormedExpr(item.expr) && ItemWords(item) == ExprWords(item.expr) + AliasWords(item.alias)
    ensures |ItemWords(item)| == |ExprWords(item.expr)| + if item.alias == "" then 0 else 2
  {
    hide WellFormedExpr, ExprWords, IsName;
  }

  lemma AliasTrip(ts: seq<Token>, q: nat, alias: string)
    requires At(ts, q, [AS, Name(alias)])
    ensures KindAt(ts, q) == KeywordAs && KindAt(ts, q + 1) == Identifier && TextAt(ts, q + 1) == alias
  {
    hide At;
    var tail := [AS, Name(alias)];
    AtFirst(ts, q, tail);
    AtWord(ts, q, tail, 1);
    AtText(ts, q, tail, 1);
  }

  lemma ReadItem(ts: seq<Token>, p: nat, item: Item<Lit>, next: nat)
    requires p <= |ts| && ParseExpr(ts, p) == Some(Parsed(item.expr, next))
    requires if item.alias == "" then KindAt(ts, next) != KeywordAs
             else KindAt(ts, next) == KeywordAs && KindAt(ts, next + 1) == Identifier && TextAt(ts, next + 1) == item.alias
    ensures ParseItem(ts, p) == Some(Parsed(item, next + if item.alias == "" then 0 else 2))
  {
    hide ParseExpr;
  }

  lemma {:induction false} ItemsTrip(ts: seq<Token>, p: nat, items: seq<Item<Lit>>, acc: seq<Item<Lit>>)
    requires items != [] && (forall i :: 0 <= i < |items| ==> WellFormedItem(items[i])) && At(ts, p, ItemsWords(items))
    requires Follows(KindAt(ts, p + |ItemsWords(items)|))
    ensures ParseItems(ts, p, acc) == Some(Parsed(acc + items, p + |ItemsWords(items)|))
    decreases |items|
  {
    hide At, WellFormedItem, ItemWords, ParseItem;
    AtLength(ts, p, ItemsWords(items));
    NextElement(acc, items);
    if |items| == 1 {
      ItemTrip(ts, p, items[0]);
    } else {
      var q := p + |ItemWords(items[0])|;
      AtPair(ts, p, ItemWords(items[0]), [COMMA] + ItemsWords(items[1..]));
      AtCons(ts, q, COMMA, ItemsWords(items[1..]));
      ItemTrip(ts, p, items[0]);
      ItemsTrip(ts, q + 1, items[1..], acc + [items[0]]);
    }
  }

  lemma {:induction false} VariablesTrip(ts: seq<Token>, p: nat, xs: seq<string>, acc: seq<string>)
    requires xs != [] && At(ts, p, VariablesWords(xs)) && Follows(KindAt(ts, p + |VariablesWords(xs)|))
    ensures ParseVariables(ts, p, acc) == Some(Parsed(acc + xs, p + |VariablesWords(xs)|))
    decreases |xs|
  {
    hide At, VariablesWords, ParseVariables;
    VariablesParts(xs);
    NextElement(acc, xs);
    if |xs| == 1 {
      FirstTrip(ts, p, Name(xs[0]));
      ReadVariable(ts, p, acc);
    } else {
      AtSplit(ts, p, [Name(xs[0]), COMMA], VariablesWords(xs[1..]));
      VariableTrip(ts, p, xs[0]);
      ReadVariable(ts, p, acc);
      VariablesTrip(ts, p + 2, xs[1..], acc + [xs[0]]);
    }
  }

  lemma VariableTrip(ts: seq<Token>, p: nat, x: string)
    requires At(ts, p, [Name(x), COMMA])
    ensures p + 2 <= |ts| && KindAt(ts, p) == Identifier && TextAt(ts, p) == x && KindAt(ts, p + 1) == Comma
  {
    hide At;
    var ws := [Name(x), COMMA];
    AtLength(ts, p, ws);
    AtFirst(ts, p, ws);
    AtText(ts, p, ws, 0);
    AtWord(ts, p, ws, 1);
  }

  lemma ReadVariable(ts: seq<Token>, p: nat, acc: seq<string>)
    requires p < |ts| && KindAt(ts, p) == Identifier
    ensures KindAt(ts, p + 1) == Comma ==> ParseVariables(ts, p, acc) == ParseVariables(ts, p + 2, acc + [TextAt(ts, p)])
    ensures KindAt(ts, p + 1) != Comma ==> ParseVariables(ts, p, acc) == Some(Parsed(acc + [TextAt(ts, p)], p + 1))
  {
  }

  lemma VariablesParts(xs: seq<string>)
    requires xs != []
    ensures |xs| == 1 ==> VariablesWords(xs) == [Name(xs[0])]
    ensures |xs| > 1 ==> VariablesWords(xs) == [Name(xs[0]), COMMA] + VariablesWords(xs[1..])
    ensures |xs| > 1 ==> |VariablesWords(xs)| == 2 + |VariablesWords(xs[1..])|
  {
  }

  lemma AssignmentTrip(ts: seq<Token>, p: nat, a: Assignment<Lit>)
    requires WellFormedAssignment(a) && At(ts, p, AssignmentWords(a))
    requires Follows(KindAt(ts, p + |AssignmentWords(a)|)) || KindAt(ts, p + |AssignmentWords(a)|) == Comma
    ensures ParseAssignment(ts, p) == Some(Parsed(a, p + |AssignmentWords(a)|))
  {
    hide At, WellFormedExpr, ExprWords, ParseExpr, IsName, AsWord, Upper, ParseAssignment, AssignmentWords;
    AssignmentParts(a);
    AtSplit(ts, p, [Name(a.variable), DOT, Name(a.property), EQUALS], ExprWords(a.value));
    TargetTrip(ts, p, a.variable, a.property);
    ExprTrip(ts, p + 4, a.value);
    ReadAssignment(ts, p, a, p + 4 + |ExprWords(a.value)|);
  }

  lemma AssignmentParts(a: Assignment<Lit>)
    requires WellFormedAssignment(a)
    ensures AssignmentWords(a) == [Name(a.variable), DOT, Name(a.property), EQUALS] + ExprWords(a.value)
    ensures |AssignmentWords(a)| == 4 + |ExprWords(a.value)|
  {
    hide WellFormedExpr, ExprWords, IsName;
  }

  lemma ReadAssignment(ts: seq<Token>, p: nat, a: Assignment<Lit>, next: nat)
    requires p + 4 <= |ts| && KindAt(ts, p) == Identifier && KindAt(ts, p + 1) == Dot && KindAt(ts, p + 2) == Identifier
    requires KindAt(ts, p + 3) == Equals && TextAt(ts, p) == a.variable && TextAt(ts, p + 2) == a.property
    requires ParseExpr(ts, p + 4) == Some(Parsed(a.value, next))
    ensures ParseAssignment(ts, p) == Some(Parsed(a, next))
  {
    hide ParseExpr;
  }

  lemma TargetTrip(ts: seq<Token>, p: nat, x: string, key: string)
    requires At(ts, p, [Name(x), DOT, Name(key), EQUALS])
    ensures p + 4 <= |ts| && KindAt(ts, p) == Identifier && KindAt(ts, p + 1) == Dot && KindAt(ts, p + 2) == Identifier
    ensures KindAt(ts, p + 3) == Equals && TextAt(ts, p) == x && TextAt(ts, p + 2) == key
  {
    hide At, AsWord, Upper;
    var target := [Name(x), DOT, Name(key), EQUALS];
    AtLength(ts, p, target);
    AtFirst(ts, p, target);
    AtWord(ts, p, target, 1);
    AtWord(ts, p, target, 2);
    AtWord(ts, p, target, 3);
    AtText(ts, p, target, 0);
    AtText(ts, p, target, 2);
  }

  lemma {:induction false} AssignmentsTrip(ts: seq<Token>, p: nat, xs: seq<Assignment<Lit>>, acc: seq<Assignment<Lit>>)
    requires xs != [] && (forall i :: 0 <= i < |xs| ==> WellFormedAssignment(xs[i])) && At(ts, p, AssignmentsWords(xs))
    requires Follows(KindAt(ts, p + |AssignmentsWords(xs)|))
    ensures ParseAssignments(ts, p, acc) == Some(Parsed(acc + xs, p + |AssignmentsWords(xs)|))
    decreases |xs|
  {
    hide At, WellFormedAssignment, AssignmentWords, ParseAssignment;
    AtLength(ts, p, AssignmentsWords(xs));
    NextElement(acc, xs);
    if |xs| == 1 {
      AssignmentTrip(ts, p, xs[0]);
    } else {
      var q := p + |AssignmentWords(xs[0])|;
      AtPair(ts, p, AssignmentWords(xs[0]), [COMMA] + AssignmentsWords(xs[1..]));
      AtCons(ts, q, COMMA, AssignmentsWords(xs[1..]));
      AssignmentTrip(ts, p, xs[0]);
      AssignmentsTrip(ts, q + 1, xs[1..], acc + [xs[0]]);
    }
  }

  lemma WhereTrip(ts: seq<Token>, p: nat, c: Clause<Lit>)
    requires c.Where? && WellFormedWhere(c) && At(ts, p, WhereWords(c.condition))
    requires Follows(KindAt(ts, p + |WhereWords(c.condition)|))
    ensures ParseWhere(ts, p) == Some(Parsed(c, p + |WhereWords(c.condition)|))
  {
    hide At, WellFormedExpr, ExprWords, ParseExpr, Comparison, WhereWords, ParseWhere, Operator;
    WhereParts(c);
    if c.condition.Binary? {
      var left, op, right := c.condition.left, c.condition.op, c.condition.right;
      var q := p + |ExprWords(left)|;
      AtPair(ts, p, ExprWords(left), [Operator(op)] + ExprWords(right));
      OperatorTrip(ts, q, op, ExprWords(right));
      ExprTrip(ts, p, left);
      ExprTrip(ts, q + 1, right);
      ReadComparison(ts, p, c, q, q + 1 + |ExprWords(right)|);
    } else {
      ExprTrip(ts, p, c.condition);
      ReadCondition(ts, p, c, p + |ExprWords(c.condition)|);
    }
  }

  lemma OperatorTrip(ts: seq<Token>, q: nat, op: string, rest: seq<Word>)
    requires IsOperator(op) && At(ts, q, [Operator(op)] + rest)
    ensures q < |ts| && IsComparison(KindAt(ts, q)) && TextAt(ts, q) == op && At(ts, q + 1, rest) && KindAt(ts, q) != Dot
  {
    hide At, Operator;
    OperatorIs(op);
    AtCons(ts, q, Operator(op), rest);
    AtText(ts, q, [Operator(op)] + rest, 0);
  }

  lemma OperatorIs(op: string)
    requires IsOperator(op)
    ensures IsComparison(Operator(op).kind) && Operator(op).text == op && !IsKeyword(Operator(op).kind)
    ensures Operator(op).kind != Dot
  {
  }

  lemma WhereParts(c: Clause<Lit>)
    requires c.Where? && WellFormedWhere(c)
    ensures c.condition.Binary? ==>
      var (left, op, right) := (c.condition.left, c.condition.op, c.condition.right);
      && WellFormedExpr(left) && WellFormedExpr(right) && IsOperator(op)
      && WhereWords(c.condition) == ExprWords(left) + ([Operator(op)] + ExprWords(right))
      && |WhereWords(c.condition)| == |ExprWords(left)| + 1 + |ExprWords(right)|
      && c == Comparison(left, op, right)
    ensures !c.condition.Binary? ==>
      && WellFormedExpr(c.condition) && WhereWords(c.condition) == ExprWords(c.condition)
      && c == Where(c.condition, "", "", "", None)
  {
    hide WellFormedExpr, ExprWords;
  }

  lemma ReadComparison(ts: seq<Token>, p: nat, c: Clause<Lit>, q: nat, next: nat)
    requires c.Where? && c.condition.Binary? && c == Comparison(c.condition.left, c.condition.op, c.condition.right)
    requires p <= |ts| && ParseExpr(ts, p) == Some(Parsed(c.condition.left, q))
    requires IsComparison(KindAt(ts, q)) && TextAt(ts, q) == c.condition.op
    requires q + 1 <= |ts| && ParseExpr(ts, q + 1) == Some(Parsed(c.condition.right, next))
    ensures ParseWhere(ts, p) == Some(Parsed(c, next))
  {
    hide ParseExpr, Comparison;
  }

  lemma ReadCondition(ts: seq<Token>, p: nat, c: Clause<Lit>, next: nat)
    requires c.Where? && c == Where(c.condition, "", "", "", None)
    requires p <= |ts| && ParseExpr(ts, p) == Some(Parsed(c.condition, next)) && !IsComparison(KindAt(ts, next))
    ensures ParseWhere(ts, p) == Some(Parsed(c, next))
  {
    hide ParseExpr;
  }

  lemma WhereClauseTrip(ts: seq<Token>, p: nat, c: Clause<Lit>)
    requires c.Where? && WellFormedClause(c) && At(ts, p, ClauseWords(c)) && Follows(KindAt(ts, p + |ClauseWords(c)|))
    ensures p < |ts| && ParseWhere(ts, p + 1) == Some(Parsed(c, p + |ClauseWords(c)|))
  {
    hide At, WellFormedExpr, WhereWords, ParseWhere, Comparison;
    AtFirst(ts, p, ClauseWords(c));
    AtSplit(ts, p, [WHERE], WhereWords(c.condition));
    WhereTrip(ts, p + 1, c);
  }

  lemma DeleteTrip(ts: seq<Token>, p: nat, xs: seq<string>)
    requires xs != [] && At(ts, p, [DELETE] + VariablesWords(xs))
    requires Follows(KindAt(ts, p + 1 + |VariablesWords(xs)|))
    ensures p < |ts| && ParseDelete(ts, p) == Some(Parsed(Delete(xs, false), p + 1 + |VariablesWords(xs)|))
  {
    hide At, VariablesWords, ParseVariables, Upper;
    AtSplit(ts, p, [DELETE], VariablesWords(xs));
    AtFirst(ts, p, [DELETE]);
    AtKeyword(ts, p, [DELETE]);
    VariablesTrip(ts, p + 1, xs, []);
    assert [] + xs == xs;
  }

  lemma DetachDeleteTrip(ts: seq<Token>, p: nat, xs: seq<string>)
    requires xs != [] && At(ts, p, [DETACH, DELETE] + VariablesWords(xs))
    requires Follows(KindAt(ts, p + 2 + |VariablesWords(xs)|))
    ensures p < |ts| && ParseDelete(ts, p) == Some(Parsed(Delete(xs, true), p + 2 + |VariablesWords(xs)|))
  {
    hide At, VariablesWords, ParseVariables, Upper;
    AtSplit(ts, p, [DETACH, DELETE], VariablesWords(xs));
    AtFirst(ts, p, [DETACH, DELETE]);
    AtKeyword(ts, p, [DETACH, DELETE]);
    AtWord(ts, p, [DETACH, DELETE], 1);
    VariablesTrip(ts, p + 2, xs, []);
    assert [] + xs == xs;
  }

  lemma UnwindTrip(ts: seq<Token>, p: nat, e: Expr<Lit>, alias: string)
    requires WellFormedExpr(e) && At(ts, p, ExprWords(e) + [AS, Name(alias)])
    ensures ParseUnwind(ts, p) == Some(Parsed(Unwind(e, alias), p + |ExprWords(e)| + 2))
  {
    hide At, WellFormedExpr, ExprWords, ParseExpr, ParseUnwind;
    var tail := [AS, Name(alias)];
    var q := p + |ExprWords(e)|;
    AtSplit(ts, p, ExprWords(e), tail);
    AliasTrip(ts, q, alias);
    ExprTrip(ts, p, e);
    ReadUnwind(ts, p, e, alias, q);
  }

  lemma ReadUnwind(ts: seq<Token>, p: nat, e: Expr<Lit>, alias: string, q: nat)
    requires p <= |ts| && ParseExpr(ts, p) == Some(Parsed(e, q))
    requires KindAt(ts, q) == KeywordAs && KindAt(ts, q + 1) == Identifier && TextAt(ts, q + 1) == alias
    ensures ParseUnwind(ts, p) == Some(Parsed(Unwind(e, alias), q + 2))
  {
    hide ParseExpr;
  }

  lemma PathsClauseTrip(ts: seq<Token>, p: nat, paths: seq<Path<Lit>>, w: Word)
    requires paths != [] && (forall i :: 0 <= i < |paths| ==> WellFormedPath(paths[i]))
    requires At(ts, p, [w] + PathsWords(paths)) && Follows(KindAt(ts, p + 1 + |PathsWords(paths)|))
    ensures p < |ts| && KindAt(ts, p) == w.kind
    ensures ParsePaths(ts, p + 1, []) == Some(Parsed(paths, p + 1 + |PathsWords(paths)|))
  {
    hide At, WellFormedPath, PathsWords, ParsePaths;
    AtCons(ts, p, w, PathsWords(paths));
    PathsTrip(ts, p + 1, paths, []);
    assert [] + paths == paths;
  }

  lemma ReturnTrip(ts: seq<Token>, p: nat, items: seq<Item<Lit>>)
    requires items != [] && (forall i :: 0 <= i < |items| ==> WellFormedItem(items[i]))
    requires At(ts, p, [RETURN] + ItemsWords(items)) && Follows(KindAt(ts, p + 1 + |ItemsWords(items)|))
    ensures p < |ts| && ParseItems(ts, p + 1, []) == Some(Parsed(items, p + 1 + |ItemsWords(items)|))
  {
    hide At, WellFormedItem, ItemsWords, ParseItems;
    AtCons(ts, p, RETURN, ItemsWords(items));
    ItemsTrip(ts, p + 1, items, []);
    assert [] + items == items;
  }

  lemma SetTrip(ts: seq<Token>, p: nat, xs: seq<Assignment<Lit>>)
    requires xs != [] && (forall i :: 0 <= i < |xs| ==> WellFormedAssignment(xs[i]))
    requires At(ts, p, [SET] + AssignmentsWords(xs)) && Follows(KindAt(ts, p + 1 + |AssignmentsWords(xs)|))
    ensures p < |ts| && ParseAssignments(ts, p + 1, []) == Some(Parsed(xs, p + 1 + |AssignmentsWords(xs)|))
  {
    hide At, WellFormedAssignment, AssignmentsWords, ParseAssignments;
    AtCons(ts, p, SET, AssignmentsWords(xs));
    AssignmentsTrip(ts, p + 1, xs, []);
    assert [] + xs == xs;
  }

  lemma ClauseTrip(ts: seq<Token>, p: nat, c: Clause<Lit>)
    requires WellFormedClause(c) && At(ts, p, ClauseWords(c)) && Follows(KindAt(ts, p + |ClauseWords(c)|))
    ensures p < |ts| && ParseClause(ts, p) == Some(Parsed(c, p + |ClauseWords(c)|))
  {
    hide At, WellFormedPath, WellFormedItem, WellFormedAssignment, WellFormedWhere, WellFormedExpr, IsName, PathsWords,
      ItemsWords, AssignmentsWords, WhereWords, ExprWords, VariablesWords, ParsePaths, ParseItems, ParseAssignments,
      ParseWhere, ParseDelete, ParseUnwind, Follows;
    AtFirst(ts, p, ClauseWords(c));
    match c
    case Create(paths) => PathsClauseTrip(ts, p, paths, CREATE);
    case Match(paths) => PathsClauseTrip(ts, p, paths, MATCH);
    case Return(items) => ReturnTrip(ts, p, items);
    case Where(_, _, _, _, _) => WhereClauseTrip(ts, p, c);
    case Delete(xs, detach) => if detach { DetachDeleteTrip(ts, p, xs); } else { DeleteTrip(ts, p, xs); }
    case Set(xs) => SetTrip(ts, p, xs);
    case Unwind(list, alias) =>
      AtCons(ts, p, UNWIND, ExprWords(list) + [AS, Name(alias)]);
      UnwindTrip(ts, p + 1, list, alias);
  }

  lemma {:induction false} ClausesTrip(ts: seq<Token>, p: nat, stmt: Statement<Lit>, acc: Statement<Lit>)
    requires WellFormed(stmt) && At(ts, p, StatementWords(stmt))
    requires KindAt(ts, p + |StatementWords(stmt)|) == Eof
    ensures ParseClauses(ts, p, acc) == Some(acc + stmt)
    decreases |stmt|
  {
    hide At, WellFormedClause, ClauseWords, ParseClause, StartsClause;
    AtLength(ts, p, StatementWords(stmt));
    if stmt == [] {
      assert acc + [] == acc;
    } else {
      var q := p + |ClauseWords(stmt[0])|;
      AtSplit(ts, p, ClauseWords(stmt[0]), StatementWords(stmt[1..]));
      StartsFollow(ts, p, stmt);
      StartsFollow(ts, q, stmt[1..]);
      ClauseTrip(ts, p, stmt[0]);
      NextElement(acc, stmt);
      ClausesTrip(ts, q, stmt[1..], acc + [stmt[0]]);
    }
  }

  /** A clause, or the end, can follow a clause. */
  lemma StartsFollow(ts: seq<Token>, p: nat, stmt: Statement<Lit>)
    requires WellFormed(stmt) && At(ts, p, StatementWords(stmt))
    ensures stmt != [] ==> KindAt(ts, p) != Eof && Follows(KindAt(ts, p))
    ensures stmt == [] ==> |StatementWords(stmt)| == 0
  {
    hide At, WellFormedClause, ClauseWords;
    if stmt != [] { AtFirst(ts, p, StatementWords(stmt)); }
  }
}
