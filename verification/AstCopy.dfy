/** Literals as heap objects (query_cache.h): deep copies, and binding new values in place. Everything else
    in a syntax tree never changes and is a value; a literal is shared by reference. */
module AstCopy {
  import opened Bytes
  import opened Ast

  class Literal {
    var value: string
    const isString: bool

    constructor (value: string, isString: bool)
      ensures this.value == value && this.isString == isString
    {
      this.value, this.isString := value, isString;
    }
  }

  type Tree = Expr<Literal>

  /** A place in a statement that holds a literal, and whether `visit_literals` comes there. */
  datatype Slot = Slot(lit: Literal, visited: bool)

  // ---- the places of a statement, in order ----

  function Slots(e: Tree, visited: bool): seq<Slot> {
    match e
    case Literal(l) => [Slot(l, visited)]
    case Binary(left, _, right) => Slots(left, visited) + Slots(right, visited)
    case ListLiteral(es) => ListSlots(es, false)
    case MapLiteral(entries) => PropSlots(entries, false)
    case _ => []
  }

  function ListSlots(es: seq<Tree>, visited: bool): seq<Slot> {
    if es == [] then [] else
    var n := |es| - 1;
    ListSlots(es[..n], visited) + Slots(es[n], visited)
  }

  function PropSlots(ps: seq<Prop<Literal>>, visited: bool): seq<Slot> {
    if ps == [] then [] else
    var n := |ps| - 1;
    PropSlots(ps[..n], visited) + Slots(ps[n].value, visited)
  }

  function ElementSlots(e: Element<Literal>, visited: bool): seq<Slot> {
    PropSlots(e.node.properties, visited)
    + match e.rel case None => [] case Some(r) => PropSlots(r.properties, visited)
  }

  function PathSlots(path: Path<Literal>, visited: bool): seq<Slot> {
    if path == [] then [] else
    var n := |path| - 1;
    PathSlots(path[..n], visited) + ElementSlots(path[n], visited)
  }

  function PathsSlots(paths: seq<Path<Literal>>, visited: bool): seq<Slot> {
    if paths == [] then [] else
    var n := |paths| - 1;
    PathsSlots(paths[..n], visited) + PathSlots(paths[n], visited)
  }

  function Values(assignments: seq<Assignment<Literal>>): (es: seq<Tree>)
    ensures |es| == |assignments|
  {
    seq(|assignments|, i requires 0 <= i < |assignments| => assignments[i].value)
  }

  function ItemExprs(items: seq<Item<Literal>>): (es: seq<Tree>)
    ensures |es| == |items|
  {
    seq(|items|, i requires 0 <= i < |items| => items[i].expr)
  }

  /** A comparison's legacy value is its right side, so it is no place of its own. */
  function ClauseSlots(c: Clause<Literal>): seq<Slot> {
    match c
    case Create(paths) => PathsSlots(paths, true)
    case Match(paths) => PathsSlots(paths, false)
    case Return(items) => ListSlots(ItemExprs(items), false)
    case Where(condition, _, _, _, value) => Slots(condition, true) + LegacySlots(condition, value)
    case Delete(_, _) => []
    case Set(assignments) => ListSlots(Values(assignments), true)
    case Unwind(list, _) => Slots(list, true)
  }

  function LegacySlots(condition: Tree, value: Option<Tree>): seq<Slot> {
    if condition.Binary? || value.None? then [] else Slots(value.value, false)
  }

  function StatementSlots(stmt: Statement<Literal>): seq<Slot> {
    if stmt == [] then [] else
    var n := |stmt| - 1;
    StatementSlots(stmt[..n]) + ClauseSlots(stmt[n])
  }

  /** The literals at the visited places. */
  function Visited(slots: seq<Slot>): seq<Literal> {
    if slots == [] then [] else
    var n := |slots| - 1;
    Visited(slots[..n]) + if slots[n].visited then [slots[n].lit] else []
  }

  function Lits(slots: seq<Slot>): set<Literal> {
    set i | 0 <= i < |slots| :: slots[i].lit
  }

  // ---- a statement without its literals ----

  function Shape(e: Tree): Expr<()> {
    match e
    case Variable(x) => Variable(x)
    case Literal(_) => Literal(())
    case PropertyAccess(x, k) => PropertyAccess(x, k)
    case Binary(left, op, right) => Binary(Shape(left), op, Shape(right))
    case ListLiteral(es) => ListLiteral(seq(|es|, i requires 0 <= i < |es| => Shape(es[i])))
    case MapLiteral(entries) => MapLiteral(PropShapes(entries))
  }

  function PropShapes(ps: seq<Prop<Literal>>): (r: seq<Prop<()>>)
    ensures |r| == |ps|
  {
    seq(|ps|, i requires 0 <= i < |ps| => Prop(ps[i].key, Shape(ps[i].value)))
  }

  function ElementShape(e: Element<Literal>): Element<()> {
    Element(Node(e.node.variable, e.node.lbl, PropShapes(e.node.properties)),
            match e.rel
            case None => None
            case Some(r) => Some(Rel(r.variable, r.kind, r.direction, PropShapes(r.properties))))
  }

  function PathShape(path: Path<Literal>): (r: Path<()>)
    ensures |r| == |path|
  {
    seq(|path|, i requires 0 <= i < |path| => ElementShape(path[i]))
  }

  function PathShapes(paths: seq<Path<Literal>>): (r: seq<Path<()>>)
    ensures |r| == |paths|
  {
    seq(|paths|, i requires 0 <= i < |paths| => PathShape(paths[i]))
  }

  function ClauseShape(c: Clause<Literal>): Clause<()> {
    match c
    case Create(paths) => Create(PathShapes(paths))
    case Match(paths) => Match(PathShapes(paths))
    case Return(items) => Return(seq(|items|, i requires 0 <= i < |items| => Item(Shape(items[i].expr), items[i].alias)))
    case Where(condition, x, k, op, value) =>
      Where(Shape(condition), x, k, op, match value case None => None case Some(v) => Some(Shape(v)))
    case Delete(variables, detach) => Delete(variables, detach)
    case Set(assignments) => Set(seq(|assignments|, i requires 0 <= i < |assignments| =>
      Assignment(assignments[i].variable, assignments[i].property, Shape(assignments[i].value))))
    case Unwind(list, alias) => Unwind(Shape(list), alias)
  }

  /** The legacy value of a comparison is the same object as the right side. */
  predicate LegacyShared(c: Clause<Literal>) {
    c.Where? && c.condition.Binary? ==> c.value == Some(c.condition.right)
  }

  // ---- copies ----

  /** The same values at the same places; the places are visited or not in the same way. */
  ghost predicate Alike(a: seq<Slot>, b: seq<Slot>)
    reads Lits(a), Lits(b)
  {
    && |a| == |b|
    && forall i :: 0 <= i < |a| ==>
         a[i].visited == b[i].visited && a[i].lit.isString == b[i].lit.isString && SameValue(a[i].lit, b[i].lit)
  }

  predicate SameValue(a: Literal, b: Literal)
    reads a, b
  {
    a.value == b.value
  }

  predicate Distinct(slots: seq<Slot>) {
    forall i, j :: 0 <= i < j < |slots| ==> slots[i].lit != slots[j].lit
  }

  /** b holds fresh literals of its own with the values of a. */
  ghost predicate Copied(a: seq<Slot>, b: seq<Slot>)
    reads Lits(a), Lits(b)
  {
    Alike(a, b) && Distinct(b)
  }

  lemma CopiedAppend(a1: seq<Slot>, b1: seq<Slot>, a2: seq<Slot>, b2: seq<Slot>)
    requires Copied(a1, b1) && Copied(a2, b2) && Lits(b1) !! Lits(b2)
    ensures Copied(a1 + a2, b1 + b2) && Lits(b1 + b2) == Lits(b1) + Lits(b2)
  {
    forall i, j | 0 <= i < |b1| && 0 <= j < |b2| ensures b1[i].lit != b2[j].lit {
      assert b1[i].lit in Lits(b1) && b2[j].lit in Lits(b2);
    }
    LitsAppend(b1, b2);
  }

  lemma LitsAppend(a: seq<Slot>, b: seq<Slot>)
    ensures Lits(a + b) == Lits(a) + Lits(b)
  {
    forall i | 0 <= i < |a| ensures a[i].lit in Lits(a + b) { assert (a + b)[i] == a[i]; }
    forall i | 0 <= i < |b| ensures b[i].lit in Lits(a + b) { assert (a + b)[|a| + i] == b[i]; }
  }

  method CloneExpr(e: Tree, ghost visited: bool) returns (c: Tree)
    ensures Shape(c) == Shape(e)
    ensures Copied(Slots(e, visited), Slots(c, visited)) && fresh(Lits(Slots(c, visited)))
    decreases e
  {
    hide ListSlots, PropSlots, Copied;
    match e
    case Literal(l) =>
      var copy := new Literal(l.value, l.isString);
      c := Expr.Literal(copy);
      OneCopied(l, copy, visited);
    case Variable(x) => c := e; NoneCopied();
    case PropertyAccess(x, k) => c := e; NoneCopied();
    case Binary(l, op, r) =>
      var left := CloneExpr(l, visited);
      ghost var a, b := Slots(l, visited), Slots(left, visited);
      ghost var known := Lits(a) + Lits(b);
      var right := CloneExpr(r, visited);
      CopiedAppend(a, b, Slots(r, visited), Slots(right, visited));
      c := Binary(left, op, right);
    case ListLiteral(es) =>
      var copies := CloneList(es, false);
      c := ListLiteral(copies);
    case MapLiteral(entries) =>
      var copies := CloneProps(entries, false);
      c := MapLiteral(copies);
  }

  lemma OneCopied(l: Literal, copy: Literal, visited: bool)
    requires l.value == copy.value && l.isString == copy.isString
    ensures Copied([Slot(l, visited)], [Slot(copy, visited)])
  {
  }

  lemma NoneCopied()
    ensures Copied([], [])
  {
  }

  method CloneList(es: seq<Tree>, ghost visited: bool) returns (copies: seq<Tree>)
    ensures |copies| == |es| && forall i :: 0 <= i < |es| ==> Shape(copies[i]) == Shape(es[i])
    ensures Copied(ListSlots(es, visited), ListSlots(copies, visited)) && fresh(Lits(ListSlots(copies, visited)))
    decreases es
  {
    hide Slots, Shape, Copied;
    copies := [];
    NoneCopied();
    for i := 0 to |es|
      invariant |copies| == i && forall j :: 0 <= j < i ==> Shape(copies[j]) == Shape(es[j])
      invariant Copied(ListSlots(es[..i], visited), ListSlots(copies, visited))
      invariant fresh(Lits(ListSlots(copies, visited)))
    {
      ghost var a, b := ListSlots(es[..i], visited), ListSlots(copies, visited);
      ghost var known := Lits(a) + Lits(b);
      var copy := CloneExpr(es[i], visited);
      assert es[..i + 1][..i] == es[..i] && (copies + [copy])[..i] == copies;
      CopiedAppend(a, b, Slots(es[i], visited), Slots(copy, visited));
      copies := copies + [copy];
    }
    assert es[..|es|] == es;
  }

  method CloneProps(ps: seq<Prop<Literal>>, ghost visited: bool) returns (copies: seq<Prop<Literal>>)
    ensures PropShapes(copies) == PropShapes(ps)
    ensures Copied(PropSlots(ps, visited), PropSlots(copies, visited)) && fresh(Lits(PropSlots(copies, visited)))
    decreases ps
  {
    hide Slots, Shape, Copied;
    copies := [];
    NoneCopied();
    for i := 0 to |ps|
      invariant |copies| == i
      invariant forall j :: 0 <= j < i ==> copies[j].key == ps[j].key && Shape(copies[j].value) == Shape(ps[j].value)
      invariant Copied(PropSlots(ps[..i], visited), PropSlots(copies, visited))
      invariant fresh(Lits(PropSlots(copies, visited)))
    {
      ghost var a, b := PropSlots(ps[..i], visited), PropSlots(copies, visited);
      ghost var known := Lits(a) + Lits(b);
      var copy := CloneExpr(ps[i].value, visited);
      var p := Prop(ps[i].key, copy);
      assert ps[..i + 1][..i] == ps[..i] && (copies + [p])[..i] == copies;
      CopiedAppend(a, b, Slots(ps[i].value, visited), Slots(copy, visited));
      copies := copies + [p];
    }
    assert ps[..|ps|] == ps;
  }

  method CloneElement(elem: Element<Literal>, ghost visited: bool) returns (copy: Element<Literal>)
    ensures ElementShape(copy) == ElementShape(elem)
    ensures Copied(ElementSlots(elem, visited), ElementSlots(copy, visited)) && fresh(Lits(ElementSlots(copy, visited)))
  {
    hide PropSlots, PropShapes, Copied;
    var props := CloneProps(elem.node.properties, visited);
    var node := Node(elem.node.variable, elem.node.lbl, props);
    ghost var a, b := PropSlots(elem.node.properties, visited), PropSlots(props, visited);
    ghost var known := Lits(a) + Lits(b);
    match elem.rel
    case None =>
      copy := Element(node, None);
      assert a + [] == a && b + [] == b;
    case Some(r) =>
      var relProps := CloneProps(r.properties, visited);
      CopiedAppend(a, b, PropSlots(r.properties, visited), PropSlots(relProps, visited));
      copy := Element(node, Some(Rel(r.variable, r.kind, r.direction, relProps)));
  }

  method ClonePath(path: Path<Literal>, ghost visited: bool) returns (copies: Path<Literal>)
    ensures PathShape(copies) == PathShape(path)
    ensures Copied(PathSlots(path, visited), PathSlots(copies, visited)) && fresh(Lits(PathSlots(copies, visited)))
  {
    hide ElementSlots, ElementShape, Copied;
    copies := [];
    NoneCopied();
    for i := 0 to |path|
      invariant |copies| == i && forall j :: 0 <= j < i ==> ElementShape(copies[j]) == ElementShape(path[j])
      invariant Copied(PathSlots(path[..i], visited), PathSlots(copies, visited))
      invariant fresh(Lits(PathSlots(copies, visited)))
    {
      ghost var a, b := PathSlots(path[..i], visited), PathSlots(copies, visited);
      ghost var known := Lits(a) + Lits(b);
      var copy := CloneElement(path[i], visited);
      assert path[..i + 1][..i] == path[..i] && (copies + [copy])[..i] == copies;
      CopiedAppend(a, b, ElementSlots(path[i], visited), ElementSlots(copy, visited));
      copies := copies + [copy];
    }
    assert path[..|path|] == path;
  }

  method ClonePaths(paths: seq<Path<Literal>>, ghost visited: bool) returns (copies: seq<Path<Literal>>)
    ensures PathShapes(copies) == PathShapes(paths)
    ensures Copied(PathsSlots(paths, visited), PathsSlots(copies, visited)) && fresh(Lits(PathsSlots(copies, visited)))
  {
    hide PathSlots, PathShape, Copied;
    copies := [];
    NoneCopied();
    for i := 0 to |paths|
      invariant |copies| == i && forall j :: 0 <= j < i ==> PathShape(copies[j]) == PathShape(paths[j])
      invariant Copied(PathsSlots(paths[..i], visited), PathsSlots(copies, visited))
      invariant fresh(Lits(PathsSlots(copies, visited)))
    {
      ghost var a, b := PathsSlots(paths[..i], visited), PathsSlots(copies, visited);
      ghost var known := Lits(a) + Lits(b);
      var copy := ClonePath(paths[i], visited);
      assert paths[..i + 1][..i] == paths[..i] && (copies + [copy])[..i] == copies;
      CopiedAppend(a, b, PathSlots(paths[i], visited), PathSlots(copy, visited));
      copies := copies + [copy];
    }
    assert paths[..|paths|] == paths;
  }

  /** A comparison's legacy value made the same object as its right side. */
  function Shared(c: Clause<Literal>): Clause<Literal> {
    if c.Where? && c.condition.Binary? then c.(value := Some(c.condition.right)) else c
  }

  method CloneClause(c: Clause<Literal>) returns (copy: Clause<Literal>)
    ensures ClauseShape(copy) == ClauseShape(Shared(c)) && LegacyShared(copy)
    ensures Copied(ClauseSlots(c), ClauseSlots(copy)) && fresh(Lits(ClauseSlots(copy)))
  {
    hide Slots, ListSlots, PathsSlots, PathShapes, Copied;
    match c
    case Create(paths) =>
      var copies := ClonePaths(paths, true);
      copy := Create(copies);
    case Match(paths) =>
      var copies := ClonePaths(paths, false);
      copy := Match(copies);
    case Where(_, _, _, _, _) => copy := CloneWhere(c);
    case Return(items) => copy := CloneReturn(items);
    case Set(assignments) => copy := CloneSet(assignments);
    case Delete(variables, detach) =>
      copy := Delete(variables, detach);
      NoneCopied();
    case Unwind(list, alias) =>
      var list1 := CloneExpr(list, true);
      copy := Unwind(list1, alias);
  }

  method CloneWhere(c: Clause<Literal>) returns (copy: Clause<Literal>)
    requires c.Where?
    ensures copy.Where? && ClauseShape(copy) == ClauseShape(Shared(c)) && LegacyShared(copy)
    ensures Copied(ClauseSlots(c), ClauseSlots(copy)) && fresh(Lits(ClauseSlots(copy)))
  {
    hide Slots, Copied;
    var condition := CloneExpr(c.condition, true);
    assert condition.Binary? <==> c.condition.Binary? by { ShapeKind(condition, c.condition); }
    ghost var a, b := Slots(c.condition, true), Slots(condition, true);
    ghost var known := Lits(a) + Lits(b);
    assert a + [] == a && b + [] == b;
    if condition.Binary? {
      copy := Where(condition, c.variable, c.property, c.op, Some(condition.right));
    } else if c.value.None? {
      copy := Where(condition, c.variable, c.property, c.op, None);
    } else {
      var value := CloneExpr(c.value.value, false);
      CopiedAppend(a, b, Slots(c.value.value, false), Slots(value, false));
      copy := Where(condition, c.variable, c.property, c.op, Some(value));
    }
  }

  lemma ShapeKind(a: Tree, b: Tree)
    requires Shape(a) == Shape(b)
    ensures (a.Binary? <==> b.Binary?) && (a.Binary? ==> Shape(a.right) == Shape(b.right))
  {
  }

  method CloneReturn(items: seq<Item<Literal>>) returns (copy: Clause<Literal>)
    ensures ClauseShape(copy) == ClauseShape(Return(items)) && copy.Return?
    ensures Copied(ClauseSlots(Return(items)), ClauseSlots(copy)) && fresh(Lits(ClauseSlots(copy)))
  {
    hide ListSlots, Shape, Copied;
    var exprs := CloneList(ItemExprs(items), false);
    var copies := seq(|items|, i requires 0 <= i < |items| => Item(exprs[i], items[i].alias));
    assert ItemExprs(copies) == exprs;
    copy := Return(copies);
  }

  method CloneSet(assignments: seq<Assignment<Literal>>) returns (copy: Clause<Literal>)
    ensures ClauseShape(copy) == ClauseShape(Set(assignments)) && copy.Set?
    ensures Copied(ClauseSlots(Set(assignments)), ClauseSlots(copy)) && fresh(Lits(ClauseSlots(copy)))
  {
    hide ListSlots, Shape, Copied;
    var exprs := CloneList(Values(assignments), true);
    var copies := seq(|assignments|, i requires 0 <= i < |assignments| =>
      Assignment(assignments[i].variable, assignments[i].property, exprs[i]));
    assert Values(copies) == exprs;
    copy := Set(copies);
  }

  /** A copy has the shape and the values of its source, no literal in common with it or with anything
      that existed, and every comparison's legacy value is the right side of the copied condition. */
  method DeepCopyStatement(src: Statement<Literal>) returns (copies: Statement<Literal>)
    ensures |copies| == |src|
    ensures forall i :: 0 <= i < |src| ==> ClauseShape(copies[i]) == ClauseShape(Shared(src[i])) && LegacyShared(copies[i])
    ensures Copied(StatementSlots(src), StatementSlots(copies)) && fresh(Lits(StatementSlots(copies)))
  {
    hide ClauseSlots, ClauseShape, Copied, LegacyShared, Shared;
    copies := [];
    NoneCopied();
    for i := 0 to |src|
      invariant |copies| == i
      invariant forall j :: 0 <= j < i ==> ClauseShape(copies[j]) == ClauseShape(Shared(src[j])) && LegacyShared(copies[j])
      invariant Copied(StatementSlots(src[..i]), StatementSlots(copies))
      invariant fresh(Lits(StatementSlots(copies)))
    {
      ghost var a, b := StatementSlots(src[..i]), StatementSlots(copies);
      ghost var known := Lits(a) + Lits(b);
      var copy := CloneClause(src[i]);
      assert src[..i + 1][..i] == src[..i] && (copies + [copy])[..i] == copies;
      CopiedAppend(a, b, ClauseSlots(src[i]), ClauseSlots(copy));
      copies := copies + [copy];
    }
    assert src[..|src|] == src;
  }
}
