/** The recursive-descent parser (parser.cpp). Every method leaves its position where the grammar says,
    or returns None where the source throws. */
module Parser {
  import opened Bytes
  import opened Ast
  import opened Lexer
  import opened Parsing

  /** A method's result and final position against the grammar's answer. */
  ghost predicate Agrees<T>(got: Option<T>, pos: nat, expected: Option<Parsed<T>>) {
    match got
    case None => expected.None?
    case Some(v) => expected == Some(Parsed(v, pos))
  }

  class Parser {
    const tokens: seq<Token>
    var pos: nat

    ghost predicate Valid()
      reads this
    {
      pos <= |tokens|
    }

    constructor (tokens: seq<Token>)
      ensures Valid() && this.tokens == tokens && pos == 0
    {
      this.tokens, pos := tokens, 0;
    }

    function PeekKind(): Kind
      reads this
    {
      KindAt(tokens, pos)
    }

    method Advance() returns (text: string)
      requires Valid()
      modifies this
      ensures Valid() && text == TextAt(tokens, old(pos))
      ensures pos == if old(pos) < |tokens| then old(pos) + 1 else old(pos)
    {
      if pos >= |tokens| { return ""; }
      text := tokens[pos].text;
      pos := pos + 1;
    }

    /** `match` in the source. */
    method Accept(kind: Kind) returns (found: bool)
      requires Valid() && kind != Eof
      modifies this
      ensures Valid() && found == (KindAt(tokens, old(pos)) == kind)
      ensures pos == if found then old(pos) + 1 else old(pos)
    {
      found := PeekKind() == kind;
      if found { var t := Advance(); }
    }

    method Consume(kind: Kind) returns (text: Option<string>)
      requires Valid() && kind != Eof
      modifies this
      ensures Valid() && text.Some? == (KindAt(tokens, old(pos)) == kind)
      ensures pos == if text.Some? then old(pos) + 1 else old(pos)
      ensures text.Some? ==> text.value == TextAt(tokens, old(pos))
    {
      if PeekKind() != kind { return None; }
      var t := Advance();
      return Some(t);
    }

    // ---- expressions ----

    method ParseExpression() returns (e: Option<Expr<Lit>>)
      requires Valid()
      modifies this
      ensures Valid() && Agrees(e, pos, ParseExpr(tokens, old(pos)))
      decreases |tokens| - pos, 0
    {
      hide Assign;
      var kind := PeekKind();
      if kind == LeftBracket {
        var b := Advance();
        var es := ParseElements();
        return if es.Some? then Some(ListLiteral(es.value)) else None;
      }
      if kind == LeftBrace {
        var b := Advance();
        var ps := ParseEntries();
        return if ps.Some? then Some(MapLiteral(ps.value)) else None;
      }
      if kind == Identifier {
        var name := Advance();
        if PeekKind() == Dot {
          var d := Advance();
          if PeekKind() != Identifier { return None; }
          var key := Advance();
          return Some(PropertyAccess(name, key));
        }
        return Some(Variable(name));
      }
      if kind == StringLiteral {
        var text := Advance();
        return Some(Literal(Lit(text, true)));
      }
      if kind == NumberLiteral {
        var text := Advance();
        return Some(Literal(Lit(text, false)));
      }
      return None;
    }

    /** The loop of a list literal, with the closing bracket. */
    method ParseElements() returns (es: Option<seq<Expr<Lit>>>)
      requires Valid()
      modifies this
      ensures Valid() && Agrees(es, pos, ParseList(tokens, old(pos), []))
      decreases |tokens| - pos, 1
    {
      hide ParseExpr;
      var acc: seq<Expr<Lit>> := [];
      ghost var start := pos;
      var going := true;
      while going && PeekKind() != RightBracket && PeekKind() != Eof
        invariant start <= pos && Valid()
        invariant going ==> ParseList(tokens, start, []) == ParseList(tokens, pos, acc)
        invariant !going ==>
          ParseList(tokens, start, []) == if KindAt(tokens, pos) == RightBracket then Some(Parsed(acc, pos + 1)) else None
        decreases if going then 1 else 0, |tokens| - pos
      {
        var e := ParseExpression();
        if e.None? { return None; }
        acc := acc + [e.value];
        going := Accept(Comma);
      }
      NoExprAtEof(tokens, pos);
      var close := Consume(RightBracket);
      return if close.Some? then Some(acc) else None;
    }

    method ParseKeyAndValue() returns (entry: Option<Prop<Lit>>)
      requires Valid()
      modifies this
      ensures Valid() && Agrees(entry, pos, ParseEntry(tokens, old(pos)))
      decreases |tokens| - pos, 0
    {
      hide ParseExpr;
      var key := Consume(Identifier);
      if key.None? { return None; }
      var colon := Consume(Colon);
      if colon.None? { return None; }
      var e := ParseExpression();
      if e.None? { return None; }
      return Some(Prop(key.value, e.value));
    }

    /** The loop of a map literal and of a property map, with the closing brace. */
    method ParseEntries() returns (ps: Option<seq<Prop<Lit>>>)
      requires Valid()
      modifies this
      ensures Valid() && Agrees(ps, pos, ParseMap(tokens, old(pos), []))
      decreases |tokens| - pos, 1
    {
      hide Assign, ParseEntry;
      var acc: seq<Prop<Lit>> := [];
      ghost var start := pos;
      var going := true;
      while going && PeekKind() != RightBrace && PeekKind() != Eof
        invariant start <= pos && Valid()
        invariant going ==> ParseMap(tokens, start, []) == ParseMap(tokens, pos, acc)
        invariant !going ==>
          ParseMap(tokens, start, []) == if KindAt(tokens, pos) == RightBrace then Some(Parsed(acc, pos + 1)) else None
        decreases if going then 1 else 0, |tokens| - pos
      {
        var e := ParseKeyAndValue();
        if e.None? { return None; }
        acc := Assign(acc, e.value.key, e.value.value);
        going := Accept(Comma);
      }
      NoEntryAtEof(tokens, pos);
      var close := Consume(RightBrace);
      return if close.Some? then Some(acc) else None;
    }

    // ---- patterns ----

    method ParseBody() returns (h: Option<Head>)
      requires Valid()
      modifies this
      ensures Valid() && Agrees(h, pos, ParseHead(tokens, old(pos)))
    {
      hide ParseMap;
      var head := Head("", "", []);
      if PeekKind() == Identifier {
        var name := Advance();
        head := head.(variable := name);
      }
      var colon := Accept(Colon);
      if colon && PeekKind() == Identifier {
        var lbl := Advance();
        head := head.(lbl := lbl);
      }
      if PeekKind() == LeftBrace {
        var b := Advance();
        var props := ParseEntries();
        if props.None? { return None; }
        head := head.(properties := props.value);
      }
      return Some(head);
    }

    method ParseNodePattern() returns (node: Option<Node<Lit>>)
      requires Valid()
      modifies this
      ensures Valid() && Agrees(node, pos, ParseNode(tokens, old(pos)))
    {
      hide ParseHead;
      var open := Consume(LeftParen);
      if open.None? { return None; }
      var h := ParseBody();
      if h.None? { return None; }
      var close := Consume(RightParen);
      if close.None? { return None; }
      return Some(Node(h.value.variable, h.value.lbl, h.value.properties));
    }

    /** The optional bracketed part. */
    method ParseBracket() returns (head: Option<Head>)
      requires Valid()
      modifies this
      ensures Valid() && Agrees(head, pos, ParseRelHead(tokens, old(pos)))
    {
      hide ParseHead;
      var bracket := Accept(LeftBracket);
      if !bracket { return Some(Head("", "", [])); }
      head := ParseBody();
      if head.None? { return; }
      var close := Consume(RightBracket);
      if close.None? { return None; }
    }

    method ParseRelationshipPattern() returns (rel: Option<Rel<Lit>>)
      requires Valid() && pos < |tokens| && StartsRel(tokens[pos].kind)
      modifies this
      ensures Valid() && Agrees(rel, pos, ParseRel(tokens, old(pos)))
    {
      hide ParseRelHead;
      var leftArrow := Accept(ArrowLeft);
      if !leftArrow {
        var d := Accept(Dash);
      }
      var h := ParseBracket();
      if h.None? { return None; }
      var rightArrow := Accept(ArrowRight);
      if !rightArrow {
        var d := Accept(Dash);
      }
      var direction := if leftArrow then "<-" else if rightArrow then "->" else "-";
      return Some(Rel(h.value.variable, h.value.lbl, direction, h.value.properties));
    }

    method ParsePatternPath() returns (path: Option<Path<Lit>>)
      requires Valid()
      modifies this
      ensures Valid() && Agrees(path, pos, ParsePath(tokens, old(pos)))
    {
      hide ParseNode, ParseRel;
      var first := ParseNodePattern();
      if first.None? { return None; }
      var acc: Path<Lit> := [Element(first.value, None)];
      ghost var start := pos;
      while StartsRel(PeekKind())
        invariant Valid() && acc != []
        invariant ParseHops(tokens, start, [Element(first.value, None)]) == ParseHops(tokens, pos, acc)
        decreases |tokens| - pos
      {
        var rel := ParseRelationshipPattern();
        if rel.None? { return None; }
        var next := ParseNodePattern();
        if next.None? { return None; }
        acc := Extend(acc, rel.value, next.value);
      }
      return Some(acc);
    }

    // ---- clauses ----

    method ParsePatternPaths() returns (paths: Option<seq<Path<Lit>>>)
      requires Valid()
      modifies this
      ensures Valid() && Agrees(paths, pos, ParsePaths(tokens, old(pos), []))
    {
      hide ParsePath;
      var acc: seq<Path<Lit>> := [];
      ghost var start := pos;
      var more := true;
      while more
        invariant Valid()
        invariant more ==> ParsePaths(tokens, start, []) == ParsePaths(tokens, pos, acc)
        invariant !more ==> ParsePaths(tokens, start, []) == Some(Parsed(acc, pos))
        decreases if more then 1 else 0, |tokens| - pos
      {
        var path := ParsePatternPath();
        if path.None? { return None; }
        acc := acc + [path.value];
        more := Accept(Comma);
      }
      return Some(acc);
    }

    method ParseReturnItem() returns (item: Option<Item<Lit>>)
      requires Valid()
      modifies this
      ensures Valid() && Agrees(item, pos, ParseItem(tokens, old(pos)))
    {
      hide ParseExpr;
      var e := ParseExpression();
      if e.None? { return None; }
      var alias := "";
      var aliased := Accept(KeywordAs);
      if aliased && PeekKind() == Identifier { alias := Advance(); }
      return Some(Item(e.value, alias));
    }

    method ParseReturn() returns (c: Option<Clause<Lit>>)
      requires Valid()
      modifies this
      ensures Valid() && match ParseItems(tokens, old(pos), [])
                         case None => c.None?
                         case Some(r) => c == Some(Return(r.value)) && pos == r.next
    {
      hide ParseItem;
      var acc: seq<Item<Lit>> := [];
      ghost var start := pos;
      var more := true;
      while more
        invariant Valid()
        invariant more ==> ParseItems(tokens, start, []) == ParseItems(tokens, pos, acc)
        invariant !more ==> ParseItems(tokens, start, []) == Some(Parsed(acc, pos))
        decreases if more then 1 else 0, |tokens| - pos
      {
        var item := ParseReturnItem();
        if item.None? { return None; }
        acc := acc + [item.value];
        more := Accept(Comma);
      }
      return Some(Return(acc));
    }

    method ParseWhereClause() returns (c: Option<Clause<Lit>>)
      requires Valid()
      modifies this
      ensures Valid() && Agrees(c, pos, ParseWhere(tokens, old(pos)))
    {
      hide ParseExpr;
      var left := ParseExpression();
      if left.None? { return None; }
      if PeekKind() == Equals || PeekKind() == LessThan || PeekKind() == GreaterThan {
        var op := Advance();
        var right := ParseExpression();
        if right.None? { return None; }
        var condition := Binary(left.value, op, right.value);
        if left.value.PropertyAccess? {
          return Some(Where(condition, left.value.variable, left.value.key, op, right));
        }
        return Some(Where(condition, "", "", "", None));
      }
      return Some(Where(left.value, "", "", "", None));
    }

    /** After DETACH or DELETE. */
    method ParseDeleteImpl(detach: bool) returns (c: Option<Clause<Lit>>)
      requires Valid()
      modifies this
      ensures Valid() && match ParseVariables(tokens, old(pos), [])
                         case None => c.None?
                         case Some(xs) => c == Some(Delete(xs.value, detach)) && pos == xs.next
    {
      var acc: seq<string> := [];
      ghost var start := pos;
      var more := true;
      while more
        invariant Valid()
        invariant more ==> ParseVariables(tokens, start, []) == ParseVariables(tokens, pos, acc)
        invariant !more ==> ParseVariables(tokens, start, []) == Some(Parsed(acc, pos))
        decreases if more then 1 else 0, |tokens| - pos
      {
        if PeekKind() != Identifier { return None; }
        var name := Advance();
        acc := acc + [name];
        more := Accept(Comma);
      }
      return Some(Delete(acc, detach));
    }

    method ParseDeleteClause() returns (c: Option<Clause<Lit>>)
      requires Valid() && pos < |tokens| && PeekKind() == KeywordDelete
      modifies this
      ensures Valid() && Agrees(c, pos, ParseDelete(tokens, old(pos)))
    {
      hide ParseVariables;
      var word := Advance();
      var detach := Upper(word) == "DETACH";
      if detach {
        var second := Consume(KeywordDelete);
        if second.None? { return None; }
      }
      c := ParseDeleteImpl(detach);
    }

    method ParseSetAssignment() returns (a: Option<Assignment<Lit>>)
      requires Valid()
      modifies this
      ensures Valid() && Agrees(a, pos, ParseAssignment(tokens, old(pos)))
    {
      hide ParseExpr;
      if PeekKind() != Identifier { return None; }
      var variable := Advance();
      var dot := Consume(Dot);
      if dot.None? { return None; }
      if PeekKind() != Identifier { return None; }
      var property := Advance();
      var equals := Consume(Equals);
      if equals.None? { return None; }
      var value := ParseExpression();
      if value.None? { return None; }
      return Some(Assignment(variable, property, value.value));
    }

    method ParseSet() returns (c: Option<Clause<Lit>>)
      requires Valid()
      modifies this
      ensures Valid() && match ParseAssignments(tokens, old(pos), [])
                         case None => c.None?
                         case Some(r) => c == Some(Set(r.value)) && pos == r.next
    {
      hide ParseAssignment;
      var acc: seq<Assignment<Lit>> := [];
      ghost var start := pos;
      var more := true;
      while more
        invariant Valid()
        invariant more ==> ParseAssignments(tokens, start, []) == ParseAssignments(tokens, pos, acc)
        invariant !more ==> ParseAssignments(tokens, start, []) == Some(Parsed(acc, pos))
        decreases if more then 1 else 0, |tokens| - pos
      {
        var a := ParseSetAssignment();
        if a.None? { return None; }
        acc := acc + [a.value];
        more := Accept(Comma);
      }
      return Some(Set(acc));
    }

    method ParseUnwindClause() returns (c: Option<Clause<Lit>>)
      requires Valid()
      modifies this
      ensures Valid() && Agrees(c, pos, ParseUnwind(tokens, old(pos)))
    {
      hide ParseExpr;
      var e := ParseExpression();
      if e.None? { return None; }
      var separator := Consume(KeywordAs);
      if separator.None? { return None; }
      var alias := Consume(Identifier);
      if alias.None? { return None; }
      return Some(Unwind(e.value, alias.value));
    }

    method ParseOneClause() returns (c: Option<Clause<Lit>>)
      requires Valid()
      modifies this
      ensures Valid() && Agrees(c, pos, ParseClause(tokens, old(pos)))
    {
      hide ParsePaths, ParseItems, ParseWhere, ParseDelete, ParseAssignments, ParseUnwind;
      var found := Accept(KeywordCreate);
      if found {
        var paths := ParsePatternPaths();
        return if paths.Some? then Some(Create(paths.value)) else None;
      }
      found := Accept(KeywordMatch);
      if found {
        var paths := ParsePatternPaths();
        return if paths.Some? then Some(Match(paths.value)) else None;
      }
      found := Accept(KeywordReturn);
      if found { c := ParseReturn(); return; }
      found := Accept(KeywordWhere);
      if found { c := ParseWhereClause(); return; }
      if PeekKind() == KeywordDelete { c := ParseDeleteClause(); return; }
      found := Accept(KeywordSet);
      if found { c := ParseSet(); return; }
      found := Accept(KeywordUnwind);
      if found { c := ParseUnwindClause(); return; }
      return None;
    }

    method ParseStatement() returns (stmt: Option<Statement<Lit>>)
      requires Valid()
      modifies this
      ensures stmt == ParseClauses(tokens, old(pos), [])
    {
      hide ParseClause;
      var acc: Statement<Lit> := [];
      ghost var start := pos;
      while PeekKind() != Eof
        invariant Valid() && ParseClauses(tokens, start, []) == ParseClauses(tokens, pos, acc)
        decreases |tokens| - pos
      {
        var c := ParseOneClause();
        if c.None? { return None; }
        acc := acc + [c.value];
      }
      return Some(acc);
    }
  }

  lemma NoExprAtEof(ts: seq<Token>, p: nat)
    requires p <= |ts|
    ensures KindAt(ts, p) == Eof ==> ParseExpr(ts, p).None?
  {
  }

  lemma NoEntryAtEof(ts: seq<Token>, p: nat)
    requires p <= |ts|
    ensures KindAt(ts, p) == Eof ==> ParseEntry(ts, p).None?
  {
  }

  /** What the service does with a query text that is not cached. */
  method ParseQuery(text: string) returns (stmt: Option<Statement<Lit>>)
    ensures stmt == Parse(text)
  {
    hide Lex, ParseClauses;
    var l := new Lexer(text);
    var tokens := l.Tokenize();
    var p := new Parser(tokens);
    stmt := p.ParseStatement();
  }
}
