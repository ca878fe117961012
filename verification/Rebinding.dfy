/** Extracting and binding literal values (query_cache.h): both walk the same literals in the same order. */
module Rebinding {
  import opened Bytes
  import opened Ast
  import opened AstCopy

  // ---- the walk ----

  lemma {:induction false} VisitedAppend(a: seq<Slot>, b: seq<Slot>)
    ensures Visited(a + b) == Visited(a) + Visited(b)
  {
    if b == [] {
      assert a + b == a;
    } else {
      var n := |b| - 1;
      assert (a + b)[..|a| + n] == a + b[..n];
      VisitedAppend(a, b[..n]);
    }
  }

  predicate Unvisited(slots: seq<Slot>) {
    forall i :: 0 <= i < |slots| ==> !slots[i].visited
  }

  lemma {:induction false} NothingVisited(slots: seq<Slot>)
    requires Unvisited(slots)
    ensures Visited(slots) == []
  {
    if slots != [] { NothingVisited(slots[..|slots| - 1]); }
  }

  /** The walk does not enter list and map literals. */
  lemma {:induction false} ExprUnvisited(e: Tree)
    ensures Unvisited(Slots(e, false))
    decreases e
  {
    match e
    case Binary(l, _, r) => ExprUnvisited(l); ExprUnvisited(r);
    case ListLiteral(es) => ListUnvisited(es);
    case MapLiteral(entries) => PropsUnvisited(entries);
    case _ =>
  }

  lemma {:induction false} ListUnvisited(es: seq<Tree>)
    ensures Unvisited(ListSlots(es, false))
    decreases es
  {
    if es != [] {
      ListUnvisited(es[..|es| - 1]);
      ExprUnvisited(es[|es| - 1]);
    }
  }

  lemma {:induction false} PropsUnvisited(ps: seq<Prop<Literal>>)
    ensures Unvisited(PropSlots(ps, false))
    decreases ps
  {
    if ps != [] {
      PropsUnvisited(ps[..|ps| - 1]);
      ExprUnvisited(ps[|ps| - 1].value);
    }
  }

  lemma {:induction false} PathUnvisited(path: Path<Literal>)
    ensures Unvisited(PathSlots(path, false))
  {
    hide PropSlots;
    if path != [] {
      var n := |path| - 1;
      PathUnvisited(path[..n]);
      PropsUnvisited(path[n].node.properties);
      if path[n].rel.Some? { PropsUnvisited(path[n].rel.value.properties); }
    }
  }

  lemma {:induction false} PathsUnvisited(paths: seq<Path<Literal>>)
    ensures Unvisited(PathsSlots(paths, false))
  {
    hide PathSlots;
    if paths != [] {
      PathsUnvisited(paths[..|paths| - 1]);
      PathUnvisited(paths[|paths| - 1]);
    }
  }

  method VisitExpr(e: Tree) returns (lits: seq<Literal>)
    ensures lits == Visited(Slots(e, true))
    decreases e
  {
    hide ListSlots, PropSlots;
    match e
    case Literal(l) =>
      lits := [l];
      assert Visited([]) == [] && [Slot(l, true)][..0] == [];
    case Binary(left, _, right) =>
      var ls := VisitExpr(left);
      var rs := VisitExpr(right);
      VisitedAppend(Slots(left, true), Slots(right, true));
      lits := ls + rs;
    case ListLiteral(es) =>
      ListUnvisited(es);
      NothingVisited(ListSlots(es, false));
      lits := [];
    case MapLiteral(entries) =>
      PropsUnvisited(entries);
      NothingVisited(PropSlots(entries, false));
      lits := [];
    case _ => lits := [];
  }

  method VisitProps(ps: seq<Prop<Literal>>) returns (lits: seq<Literal>)
    ensures lits == Visited(PropSlots(ps, true))
  {
    hide Slots;
    lits := [];
    for i := 0 to |ps|
      invariant lits == Visited(PropSlots(ps[..i], true))
    {
      assert ps[..i + 1][..i] == ps[..i];
      var more := VisitExpr(ps[i].value);
      VisitedAppend(PropSlots(ps[..i], true), Slots(ps[i].value, true));
      lits := lits + more;
    }
    assert ps[..|ps|] == ps;
  }

  method VisitList(es: seq<Tree>) returns (lits: seq<Literal>)
    ensures lits == Visited(ListSlots(es, true))
  {
    hide Slots;
    lits := [];
    for i := 0 to |es|
      invariant lits == Visited(ListSlots(es[..i], true))
    {
      assert es[..i + 1][..i] == es[..i];
      var more := VisitExpr(es[i]);
      VisitedAppend(ListSlots(es[..i], true), Slots(es[i], true));
      lits := lits + more;
    }
    assert es[..|es|] == es;
  }

  method VisitPath(path: Path<Literal>) returns (lits: seq<Literal>)
    ensures lits == Visited(PathSlots(path, true))
  {
    hide PropSlots;
    lits := [];
    for i := 0 to |path|
      invariant lits == Visited(PathSlots(path[..i], true))
    {
      assert path[..i + 1][..i] == path[..i];
      var node := VisitProps(path[i].node.properties);
      var rel := [];
      if path[i].rel.Some? { rel := VisitProps(path[i].rel.value.properties); }
      VisitedElement(path[i]);
      VisitedAppend(PathSlots(path[..i], true), ElementSlots(path[i], true));
      lits := lits + (node + rel);
    }
    assert path[..|path|] == path;
  }

  lemma VisitedElement(e: Element<Literal>)
    ensures Visited(ElementSlots(e, true)) == Visited(PropSlots(e.node.properties, true))
      + match e.rel case None => [] case Some(r) => Visited(PropSlots(r.properties, true))
  {
    hide PropSlots;
    VisitedAppend(PropSlots(e.node.properties, true),
                  match e.rel case None => [] case Some(r) => PropSlots(r.properties, true));
  }

  method VisitPaths(paths: seq<Path<Literal>>) returns (lits: seq<Literal>)
    ensures lits == Visited(PathsSlots(paths, true))
  {
    hide PathSlots;
    lits := [];
    for i := 0 to |paths|
      invariant lits == Visited(PathsSlots(paths[..i], true))
    {
      assert paths[..i + 1][..i] == paths[..i];
      var more := VisitPath(paths[i]);
      VisitedAppend(PathsSlots(paths[..i], true), PathSlots(paths[i], true));
      lits := lits + more;
    }
    assert paths[..|paths|] == paths;
  }

  method VisitClause(c: Clause<Literal>) returns (lits: seq<Literal>)
    ensures lits == Visited(ClauseSlots(c))
  {
    hide Slots, ListSlots, PathsSlots, PropSlots;
    match c
    case Create(paths) => lits := VisitPaths(paths);
    case Where(condition, _, _, _, value) =>
      lits := VisitExpr(condition);
      LegacyUnvisited(condition, value);
      VisitedAppend(Slots(condition, true), LegacySlots(condition, value));
    case Set(assignments) =>
      lits := VisitList(Values(assignments));
    case Unwind(list, _) => lits := VisitExpr(list);
    case Match(paths) =>
      PathsUnvisited(paths);
      NothingVisited(PathsSlots(paths, false));
      lits := [];
    case Return(items) =>
      ListUnvisited(ItemExprs(items));
      NothingVisited(ListSlots(ItemExprs(items), false));
      lits := [];
    case Delete(_, _) => lits := [];
  }

  lemma LegacyUnvisited(condition: Tree, value: Option<Tree>)
    ensures Visited(LegacySlots(condition, value)) == []
  {
    if value.Some? { ExprUnvisited(value.value); }
    NothingVisited(LegacySlots(condition, value));
  }

  /** The literals `visit_literals` hands to its visitor, in order. */
  method VisitLiterals(stmt: Statement<Literal>) returns (lits: seq<Literal>)
    ensures lits == Visited(StatementSlots(stmt))
  {
    hide ClauseSlots;
    lits := [];
    for i := 0 to |stmt|
      invariant lits == Visited(StatementSlots(stmt[..i]))
    {
      assert stmt[..i + 1][..i] == stmt[..i];
      var more := VisitClause(stmt[i]);
      VisitedAppend(StatementSlots(stmt[..i]), ClauseSlots(stmt[i]));
      lits := lits + more;
    }
    assert stmt[..|stmt|] == stmt;
  }

  // ---- which literals are reached ----

  /** The literals of an expression outside lists and maps, from left to right. */
  function Reached(e: Tree): seq<Literal> {
    match e
    case Literal(l) => [l]
    case Binary(left, _, right) => Reached(left) + Reached(right)
    case _ => []
  }

  function ReachedAll(es: seq<Tree>): seq<Literal> {
    if es == [] then [] else ReachedAll(es[..|es| - 1]) + Reached(es[|es| - 1])
  }

  function PropValues(ps: seq<Prop<Literal>>): (es: seq<Tree>)
    ensures |es| == |ps|
  {
    seq(|ps|, i requires 0 <= i < |ps| => ps[i].value)
  }

  /** Per element the node's properties and then the relationship's. */
  function ReachedPath(path: Path<Literal>): seq<Literal> {
    if path == [] then [] else
    var last := path[|path| - 1];
    ReachedPath(path[..|path| - 1]) + ReachedAll(PropValues(last.node.properties))
    + match last.rel case None => [] case Some(r) => ReachedAll(PropValues(r.properties))
  }

  function ReachedPaths(paths: seq<Path<Literal>>): seq<Literal> {
    if paths == [] then [] else ReachedPaths(paths[..|paths| - 1]) + ReachedPath(paths[|paths| - 1])
  }

  /** CREATE is reached in its patterns, WHERE in its condition, SET in the assigned values, UNWIND in its
      list expression; MATCH, RETURN and DELETE are passed over. */
  function ReachedClause(c: Clause<Literal>): seq<Literal> {
    match c
    case Create(paths) => ReachedPaths(paths)
    case Where(condition, _, _, _, _) => Reached(condition)
    case Set(xs) => ReachedAll(Values(xs))
    case Unwind(list, _) => Reached(list)
    case _ => []
  }

  function ReachedStatement(stmt: Statement<Literal>): seq<Literal> {
    if stmt == [] then [] else ReachedStatement(stmt[..|stmt| - 1]) + ReachedClause(stmt[|stmt| - 1])
  }

  lemma {:induction false} VisitedExpr(e: Tree)
    ensures Visited(Slots(e, true)) == Reached(e)
    decreases e
  {
    hide ListSlots, PropSlots;
    match e
    case Literal(l) => assert Visited([]) == [] && [Slot(l, true)][..0] == [];
    case Binary(left, _, right) =>
      VisitedExpr(left);
      VisitedExpr(right);
      VisitedAppend(Slots(left, true), Slots(right, true));
    case ListLiteral(es) =>
      ListUnvisited(es);
      NothingVisited(ListSlots(es, false));
    case MapLiteral(entries) =>
      PropsUnvisited(entries);
      NothingVisited(PropSlots(entries, false));
    case _ =>
  }

  lemma {:induction false} VisitedList(es: seq<Tree>)
    ensures Visited(ListSlots(es, true)) == ReachedAll(es)
  {
    hide Slots, Reached;
    if es != [] {
      var n := |es| - 1;
      VisitedList(es[..n]);
      VisitedExpr(es[n]);
      VisitedAppend(ListSlots(es[..n], true), Slots(es[n], true));
    }
  }

  lemma {:induction false} VisitedProps(ps: seq<Prop<Literal>>)
    ensures Visited(PropSlots(ps, true)) == ReachedAll(PropValues(ps))
  {
    hide Slots, Reached;
    if ps != [] {
      var n := |ps| - 1;
      VisitedProps(ps[..n]);
      VisitedExpr(ps[n].value);
      VisitedAppend(PropSlots(ps[..n], true), Slots(ps[n].value, true));
      assert PropValues(ps)[..n] == PropValues(ps[..n]);
    }
  }

  lemma {:induction false} VisitedPath(path: Path<Literal>)
    ensures Visited(PathSlots(path, true)) == ReachedPath(path)
  {
    hide PropSlots, ReachedAll, ElementSlots;
    if path != [] {
      var n := |path| - 1;
      VisitedPath(path[..n]);
      VisitedElement(path[n]);
      VisitedProps(path[n].node.properties);
      if path[n].rel.Some? { VisitedProps(path[n].rel.value.properties); }
      VisitedAppend(PathSlots(path[..n], true), ElementSlots(path[n], true));
    }
  }

  lemma {:induction false} VisitedPaths(paths: seq<Path<Literal>>)
    ensures Visited(PathsSlots(paths, true)) == ReachedPaths(paths)
  {
    hide PathSlots, ReachedPath;
    if paths != [] {
      var n := |paths| - 1;
      VisitedPaths(paths[..n]);
      VisitedPath(paths[n]);
      VisitedAppend(PathsSlots(paths[..n], true), PathSlots(paths[n], true));
    }
  }

  lemma VisitedClause(c: Clause<Literal>)
    ensures Visited(ClauseSlots(c)) == ReachedClause(c)
  {
    hide Slots, ListSlots, PathsSlots, Reached, ReachedAll, ReachedPaths;
    match c
    case Create(paths) => VisitedPaths(paths);
    case Where(condition, _, _, _, value) =>
      VisitedExpr(condition);
      LegacyUnvisited(condition, value);
      VisitedAppend(Slots(condition, true), LegacySlots(condition, value));
    case Set(xs) => VisitedList(Values(xs));
    case Unwind(list, _) => VisitedExpr(list);
    case Match(paths) =>
      PathsUnvisited(paths);
      NothingVisited(PathsSlots(paths, false));
    case Return(items) =>
      ListUnvisited(ItemExprs(items));
      NothingVisited(ListSlots(ItemExprs(items), false));
    case Delete(_, _) =>
  }

  /** Extraction and binding reach exactly these literals, in this order. */
  lemma {:induction false} VisitedStatement(stmt: Statement<Literal>)
    ensures Visited(StatementSlots(stmt)) == ReachedStatement(stmt)
  {
    hide ClauseSlots, ReachedClause;
    if stmt != [] {
      var n := |stmt| - 1;
      VisitedStatement(stmt[..n]);
      VisitedClause(stmt[n]);
      VisitedAppend(StatementSlots(stmt[..n]), ClauseSlots(stmt[n]));
    }
  }

  /** SET a.x = literal, ...: one literal per assignment, in order. */
  lemma {:induction false} SetReached(xs: seq<Assignment<Literal>>)
    requires forall i :: 0 <= i < |xs| ==> xs[i].value.Literal?
    ensures var lits := ReachedClause(Set(xs));
      |lits| == |xs| && forall i :: 0 <= i < |xs| ==> lits[i] == xs[i].value.lit
  {
    if xs != [] {
      var n := |xs| - 1;
      SetReached(xs[..n]);
      assert Values(xs)[..n] == Values(xs[..n]);
    }
  }

  /** So the literal of the i-th assignment of a last SET stands i places after those of the clauses before. */
  lemma SetPosition(stmt: Statement<Literal>, xs: seq<Assignment<Literal>>, i: nat)
    requires i < |xs| && forall j :: 0 <= j < |xs| ==> xs[j].value.Literal?
    ensures var lits := Visited(StatementSlots(stmt + [Set(xs)]));
      |ReachedStatement(stmt)| + i < |lits| && lits[|ReachedStatement(stmt)| + i] == xs[i].value.lit
  {
    hide ReachedClause, StatementSlots, Visited;
    var all := stmt + [Set(xs)];
    VisitedStatement(all);
    assert all[..|all| - 1] == stmt && all[|all| - 1] == Set(xs);
    assert ReachedStatement(all) == ReachedStatement(stmt) + ReachedClause(Set(xs));
    hide ReachedStatement;
    SetReached(xs);
  }

  // ---- extract and bind ----

  function Texts(lits: seq<Literal>): (r: seq<string>)
    reads lits
    ensures |r| == |lits|
  {
    seq(|lits|, i requires 0 <= i < |lits| reads lits => lits[i].value)
  }

  method ExtractLiterals(stmt: Statement<Literal>) returns (texts: seq<string>)
    ensures texts == Texts(Visited(StatementSlots(stmt)))
  {
    var lits := VisitLiterals(stmt);
    texts := [];
    for i := 0 to |lits|
      invariant texts == Texts(lits)[..i]
    {
      texts := texts + [lits[i].value];
    }
  }

  /** What each literal is bound to: values are handed out in order until they run out. */
  function Bindings(lits: seq<Literal>, values: seq<string>): map<Literal, string> {
    if lits == [] then map[] else
    var n := |lits| - 1;
    var b := Bindings(lits[..n], values);
    if n < |values| then b[lits[n] := values[n]] else b
  }

  method BindLiterals(stmt: Statement<Literal>, values: seq<string>)
    modifies Visited(StatementSlots(stmt))
    ensures var lits := Visited(StatementSlots(stmt)); var b := Bindings(lits, values);
      forall i :: 0 <= i < |lits| ==>
        lits[i].value == if lits[i] in b then b[lits[i]] else old(Texts(Visited(StatementSlots(stmt))))[i]
  {
    hide ClauseSlots, Bindings;
    ghost var known := Visited(StatementSlots(stmt));
    ghost var before := Texts(known);
    var lits := VisitLiterals(stmt);
    assert Texts(lits) == before;
    BindAll(lits, values);
  }

  method BindAll(lits: seq<Literal>, values: seq<string>)
    modifies lits
    ensures var b := Bindings(lits, values);
      forall i :: 0 <= i < |lits| ==> lits[i].value == if lits[i] in b then b[lits[i]] else old(Texts(lits))[i]
  {
    ghost var before := Texts(lits);
    ghost var b: map<Literal, string> := map[];
    var idx := 0;
    for i := 0 to |lits|
      invariant idx == (if i < |values| then i else |values|) && b == Bindings(lits[..i], values)
      invariant forall j :: 0 <= j < |lits| ==> lits[j].value == if lits[j] in b then b[lits[j]] else before[j]
    {
      assert lits[..i + 1][..i] == lits[..i];
      if idx < |values| {
        lits[i].value := values[idx];
        b := b[lits[i] := values[idx]];
        idx := idx + 1;
      }
    }
    assert lits[..|lits|] == lits;
  }

  predicate NoRepeat(lits: seq<Literal>) {
    forall i, j :: 0 <= i < j < |lits| ==> lits[i] != lits[j]
  }

  /** Distinct literals get the value of their own position. */
  lemma {:induction false} BindingsAt(lits: seq<Literal>, values: seq<string>)
    requires NoRepeat(lits)
    ensures var b := Bindings(lits, values);
      && (forall l :: l in b ==> l in lits)
      && (forall i :: 0 <= i < |lits| ==> (lits[i] in b <==> i < |values|) && (i < |values| ==> b[lits[i]] == values[i]))
  {
    if lits != [] {
      var n := |lits| - 1;
      BindingsAt(lits[..n], values);
      assert forall i :: 0 <= i < n ==> lits[..n][i] == lits[i];
    }
  }

  /** The bound values, then the old ones past the list's end. */
  function Rebound(before: seq<string>, values: seq<string>): seq<string> {
    if |values| <= |before| then values + before[|values|..] else values[..|before|]
  }

  lemma {:induction false} VisitedDistinct(slots: seq<Slot>)
    requires Distinct(slots)
    ensures NoRepeat(Visited(slots)) && forall l :: l in Visited(slots) ==> l in Lits(slots)
  {
    if slots != [] {
      var n := |slots| - 1;
      VisitedDistinct(slots[..n]);
      assert slots[n].lit in Lits(slots);
      forall l | l in Lits(slots[..n]) ensures l in Lits(slots) && l != slots[n].lit {
        var i :| 0 <= i < n && slots[..n][i].lit == l;
        assert slots[i].lit == l;
      }
      var before := Visited(slots[..n]);
      forall i | 0 <= i < |before| ensures before[i] != slots[n].lit { assert before[i] in before; }
    }
  }

  lemma TextsAppend(lits: seq<Literal>, l: Literal)
    ensures Texts(lits + [l]) == Texts(lits) + [l.value]
    ensures Texts(lits + []) == Texts(lits)
  {
    assert lits + [] == lits;
  }

  lemma {:induction false} AlikeVisited(a: seq<Slot>, b: seq<Slot>)
    requires Alike(a, b)
    ensures Texts(Visited(a)) == Texts(Visited(b))
  {
    if a != [] {
      var n := |a| - 1;
      AlikeVisited(a[..n], b[..n]);
      TextsAppend(Visited(a[..n]), a[n].lit);
      TextsAppend(Visited(b[..n]), b[n].lit);
      assert a[n].visited == b[n].visited && SameValue(a[n].lit, b[n].lit);
    }
  }

  /** Binding and extracting are inverse on statements whose visited literals are different objects. */
  method BindThenExtract(stmt: Statement<Literal>, values: seq<string>) returns (texts: seq<string>)
    requires NoRepeat(Visited(StatementSlots(stmt)))
    modifies Visited(StatementSlots(stmt))
    ensures texts == Rebound(old(Texts(Visited(StatementSlots(stmt)))), values)
    ensures texts == Texts(Visited(StatementSlots(stmt)))
  {
    hide StatementSlots, Visited;
    ghost var lits := Visited(StatementSlots(stmt));
    BindingsAt(lits, values);
    BindLiterals(stmt, values);
    texts := ExtractLiterals(stmt);
    forall i | 0 <= i < |lits| ensures texts[i] == Rebound(old(Texts(lits)), values)[i] {
      assert lits[i] in lits;
    }
  }

  /** A template is copied and its copy is bound: the copy reads the new values, no literal that existed
      before has changed, and a comparison in WHERE still shows its legacy value through the same object. */
  method Instantiate(src: Statement<Literal>, values: seq<string>) returns (copies: Statement<Literal>)
    ensures |copies| == |src| && fresh(Lits(StatementSlots(copies)))
    ensures forall i :: 0 <= i < |src| ==> ClauseShape(copies[i]) == ClauseShape(Shared(src[i])) && LegacyShared(copies[i])
    ensures Texts(Visited(StatementSlots(copies))) == Rebound(Texts(Visited(StatementSlots(src))), values)
  {
    hide ClauseSlots, ClauseShape, LegacyShared, Distinct, Shared, Alike;
    ghost var known := Visited(StatementSlots(src));
    ghost var before := Texts(known);
    copies := DeepCopyStatement(src);
    VisitedDistinct(StatementSlots(copies));
    AlikeVisited(StatementSlots(src), StatementSlots(copies));
    ghost var own := Visited(StatementSlots(copies));
    forall i | 0 <= i < |own| ensures fresh(own[i]) { assert own[i] in own; }
    var texts := BindThenExtract(copies, values);
    assert Texts(known) == before;
  }
}
