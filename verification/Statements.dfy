/** What whole statements do, run by a new executor on a reachable database: the rows they answer and the
    nodes and edges they leave. */
module Statements {
  import opened Bytes
  import opened Ast
  import opened JsonLaws
  import opened Store
  import opened PropertyIndex
  import opened Runs
  import opened RunResults
  import opened LabelScans
  import opened Ranges
  import opened Matching
  import opened Where
  import opened WhereResults
  import opened CreateClause
  import opened ReturnClause
  import opened Execution
  import opened Answers
  import opened ReturnResults
  import CreateResults
  import Json
  import DeleteClause
  import SetClause
  import SetResults

  function Start(d: Db): Machine {
    Machine(d, FRESH, "", Running)
  }

  // ---- unfolding ----

  predicate Fusible(stmt: Statement<Lit>) {
    |stmt| >= 2 && stmt[0].Match? && stmt[1].Where?
  }

  lemma FirstClause(stod: Stod, m: Machine, stmt: Statement<Lit>, n: Machine) returns (mid: Machine)
    requires stmt != [] && StatementRuns(stod, m, stmt, n) && !Loops(stmt[0]) && Fused(stod, m, stmt).None?
    ensures ClauseStep(stod, m, stmt[0], mid)
    ensures if mid.status.Running? then StatementRuns(stod, mid, stmt[1..], n) else n == mid
  {
    hide ClauseStep, UnwindRuns, Fused;
    mid :| ClauseStep(stod, m, stmt[0], mid) && StatementGoesOn(stod, mid, stmt[1..], n);
  }

  lemma LastClause(stod: Stod, m: Machine, c: Clause<Lit>, n: Machine)
    requires StatementRuns(stod, m, [c], n) && !Loops(c)
    ensures ClauseStep(stod, m, c, n)
  {
    hide ClauseStep, UnwindRuns;
    assert Fused(stod, m, [c]).None?;
    var mid := FirstClause(stod, m, [c], n);
    assert [c][1..] == [];
  }

  /** MATCH of one path and another clause. */
  lemma MatchThen(stod: Stod, m: Machine, path: Path<Lit>, c: Clause<Lit>, n: Machine)
    requires StatementRuns(stod, m, [Match([path]), c], n) && !c.Where? && !Loops(c) && m.status.Running?
    ensures ClauseStep(stod, m.(env := MatchPath(stod, m.db, m.env, path)), c, n)
  {
    hide MatchPath, UnwindRuns;
    var stmt := [Match([path]), c];
    var mid := FirstClause(stod, m, stmt, n);
    assert stmt[1..] == [c];
    OnePathOnly(stod, m.db, m.env, path);
    hide ClauseStep;
    LastClause(stod, mid, c, n);
  }

  lemma OnePathOnly(stod: Stod, d: Db, env: Env, path: Path<Lit>)
    ensures MatchPaths(stod, d, env, [path]) == MatchPath(stod, d, env, path)
  {
    hide MatchPath;
    assert [path][..0] == [] && MatchPaths(stod, d, env, []) == env;
  }

  // ---- where paths start ----

  /** A label without properties starts at all nodes created with it, in ascending order. */
  lemma StartsAtLabel(stod: Stod, w: World, env: Env, node: Node<Lit>)
    requires Inv(stod, w) && node.lbl != "" && node.properties == [] && ScanExact(w, node.lbl) && Bound(env, node.variable) == []
    ensures Increasing(StartIds(stod, w.db, env, node))
    ensures forall x :: x in StartIds(stod, w.db, env, node) <==> x in w.labels && w.labels[x] == node.lbl
  {
    hide Inv, IteratedByLabel, NodesByLabel;
  }

  lemma {:induction false} KeptInline(d: Db, ids: seq<u64>, props: seq<Prop<Lit>>)
    ensures forall x :: x in KeepInline(d, ids, props) <==>
      x in ids && ToKey(x) in d.nodes && InlineMatch(NodeText(d, x), props)
  {
    hide InlineMatch, ToKey, TextOf;
    if ids != [] {
      KeptInline(d, ids[..|ids| - 1], props);
      assert forall x :: x in ids <==> x in ids[..|ids| - 1] || x == ids[|ids| - 1];
    }
  }

  /** The keys of the literal properties can be looked up in the text. */
  ghost predicate LiteralsFound(es: seq<Entry>, props: seq<Prop<Lit>>) {
    forall i :: 0 <= i < |props| && props[i].value.Literal? ==> IsIdentifier(props[i].key) && KeyFound(es, props[i].key)
  }

  /** A label with properties that are not all literals is scanned, and a live node is kept exactly when the
      value it stores under each literal property is that literal's text. */
  lemma StartsAtScan(stod: Stod, w: World, env: Env, node: Node<Lit>, x: u64, es: seq<Entry>)
    requires Inv(stod, w) && node.lbl != "" && !AllLiterals(node.properties) && ScanExact(w, node.lbl)
    requires Bound(env, node.variable) == []
    requires x in w.labels && NodeText(w.db, x) == Print(es) && WellFormed(es) && LiteralsFound(es, node.properties)
    ensures x in StartIds(stod, w.db, env, node) <==>
      && w.labels[x] == node.lbl
      && forall i :: 0 <= i < |node.properties| && node.properties[i].value.Literal? ==>
           StoredValue(es, node.properties[i].key) == node.properties[i].value.lit.text
  {
    hide Inv, IteratedByLabel, NodesByLabel, Print, ToKey, TextOf, KeyFound, Json.GetValue, IsIdentifier, WellFormed;
    KeptInline(w.db, IteratedByLabel(w.db, node.lbl), node.properties);
    PrintIsText(es);
    LiveHasKey(w, x);
    forall i | 0 <= i < |node.properties| && node.properties[i].value.Literal?
      ensures Json.GetValue(NodeText(w.db, x), node.properties[i].key) == StoredValue(es, node.properties[i].key)
    {
      HelpersCommuteWithPrinterIff(es, node.properties[i].key);
    }
  }

  /** Which walks a path of a new executor stands for, and what its last variable is bound to. */
  ghost predicate Walked(stod: Stod, w: World, path: Path<Lit>, env: Env)
    requires NamedPath(FRESH, path)
  {
    && PathEnumerates(w, StartIds(stod, w.db, FRESH, path[0].node), path, env)
    && forall i :: 0 <= i < |path| && path[i].node.variable in env.context ==> Carries(FRESH, env, path[i].node)
  }

  ghost predicate GoodMatch(w: World, path: Path<Lit>) {
    NamedPath(FRESH, path) && LabelsExact(w, PathHops(path, |path| - 1))
  }

  /** The same in any environment without bindings, as UNWIND makes them. */
  lemma MatchWalks(stod: Stod, w: World, env: Env, path: Path<Lit>)
    requires Inv(stod, w) && GoodMatch(w, path) && env.context == map[] && env.labels == map[]
    ensures Walked(stod, w, path, MatchPath(stod, w.db, env, path))
  {
    hide Inv, LabelsExact, PathEnumerates, MatchPath, IndexedIds, ScannedIds, PathHops;
    assert NamedPath(env, path);
    MatchEnumeratesWalks(stod, w, env, path);
    assert StartIds(stod, w.db, env, path[0].node) == StartIds(stod, w.db, FRESH, path[0].node);
    MatchCarries(stod, w.db, env, path);
  }

  // ---- MATCH and RETURN ----

  /** Every item can be read back, whatever it turns out to show. */
  ghost predicate ItemsReadable(w: World, items: seq<Item<Lit>>) {
    forall j :: 0 <= j < |items| ==> GoodItem(items[j]) && forall id: u64 :: ExprShowable(w, items[j].expr, id)
  }

  /** The answer has the rows of these bindings. */
  ghost predicate Answered(w: World, env: Env, items: seq<Item<Lit>>, result: string) {
    LongestList(env, items, |ReadAnswer(result)|) && AnswersFor(w, env, items, ReadAnswer(result))
  }

  lemma ReturnAnswers(stod: Stod, w: World, m: Machine, items: seq<Item<Lit>>, n: Machine)
    requires Inv(stod, w) && m.db == w.db && m.status.Running? && ItemsReadable(w, items)
    requires ClauseStep(stod, m, Return(items), n)
    ensures n.db == m.db && n.env == m.env && n.status.Running? && Answered(w, n.env, items, n.result)
  {
    hide Inv, ReturnText, ReadAnswer, ItemsReadable, AllShowable, LongestList, AnswersFor;
    AnyIsShowable(w, m.env, items);
    AnswerReads(stod, w, m.env, items);
  }

  /** MATCH path RETURN items: the database stays, and the rows are those of the walks the path stands for. */
  lemma MatchReturn(stod: Stod, w: World, path: Path<Lit>, items: seq<Item<Lit>>, n: Machine)
    requires Inv(stod, w) && GoodMatch(w, path) && ItemsReadable(w, items)
    requires StatementRuns(stod, Start(w.db), [Match([path]), Return(items)], n)
    ensures n.status.Running? && n.db == w.db && Walked(stod, w, path, n.env) && Answered(w, n.env, items, n.result)
  {
    hide Inv, MatchPath, StatementRuns, ClauseStep, ItemsReadable, Walked, Answered, GoodMatch;
    MatchThen(stod, Start(w.db), path, Return(items), n);
    MatchWalks(stod, w, FRESH, path);
    var m := Start(w.db).(env := MatchPath(stod, w.db, FRESH, path));
    ReturnAnswers(stod, w, m, items, n);
  }

  /** For the property of the last node: one row per walk, in the order of the list of walks, each with the
      value stored where the walk ends; a single row with null if there is none. */
  lemma MatchReturnEnds(stod: Stod, w: World, path: Path<Lit>, key: string, alias: string, n: Machine)
    requires path != []
    requires var items := [Item(PropertyAccess(path[|path| - 1].node.variable, key), alias)];
      && Inv(stod, w) && GoodMatch(w, path) && ItemsReadable(w, items)
      && StatementRuns(stod, Start(w.db), [Match([path]), Return(items)], n)
    ensures var rows: seq<seq<Column>> := ReadAnswer(n.result);
            var srcs, hops := StartIds(stod, w.db, FRESH, path[0].node), PathHops(path, |path| - 1);
            var walks := WalkList(w.db, srcs, hops);
      && (forall k :: k in walks <==> IsWalk(w, srcs, hops, k)) && Distinct(walks)
      && |rows| == (if walks == [] then 1 else |walks|)
      && forall i :: 0 <= i < |rows| ==>
           && |rows[i]| == 1
           && if i < |walks| then IsWalk(w, srcs, hops, walks[i]) && ShowsProperty(w, key, EndOf(w, srcs, hops, walks[i]), rows[i][0].cell)
              else rows[i][0].cell == Token("null")
  {
    hide Inv, StatementRuns, ItemsReadable, ReadAnswer, WalkList, IsWalk, ShowsProperty, StartIds, LabelsExact, Aligned, EndOf;
    var last := path[|path| - 1].node.variable;
    var items := [Item(PropertyAccess(last, key), alias)];
    MatchReturn(stod, w, path, items, n);
    assert ItemVariable(items[0]) == last;
    var rows: seq<seq<Column>> := ReadAnswer(n.result);
    forall i | 0 <= i < |rows| ensures |rows[i]| == 1 && ShowsRow(w, n.env, items[0], i, rows[i][0].cell) {
      assert 0 <= 0 < |items|;
    }
  }

  // ---- MATCH, WHERE and RETURN ----

  /** env2 is env1 with the filter's list cut down to the ids whose stored values pass. */
  ghost predicate FilteredBy(stod: Stod, w: World, env1: Env, f: Filter, env2: Env) {
    && env2.labels == env1.labels && (forall y :: y != f.variable ==> Bound(env2, y) == Bound(env1, y))
    && (forall id :: id in Bound(env2, f.variable) ==> id in Bound(env1, f.variable))
    && (forall id, v :: Holder(w, env1, f, id, v) && Strings(stod, f, v) && Operator(f.op) ==>
          (id in Bound(env2, f.variable) <==> StringPasses(f.op, v, CompareText(f))))
    && (forall id, v, x :: Holder(w, env1, f, id, v) && IsNumber(stod, f, v, x) && NumberTest(stod, env1, f, x) ==>
          (id in Bound(env2, f.variable) <==> RealPasses(f.op, x, CompareNumber(stod, f).value)))
  }

  predicate IsNumber(stod: Stod, f: Filter, v: string, x: u64) {
    v != "" && stod(v) == Some(x) && CompareNumber(stod, f).Some?
  }

  predicate NumberTest(stod: Stod, env: Env, f: Filter, x: u64)
    requires CompareNumber(stod, f).Some?
  {
    (RangeOp(f.op) || f.op == "<>") && NumberSafe(env, f, x, CompareNumber(stod, f).value)
  }

  lemma WhereFilters(stod: Stod, w: World, env: Env, f: Filter)
    requires Inv(stod, w) && f.variable != "" && f.property != "" && f.variable in env.context
    ensures FilteredBy(stod, w, env, f, ExecWhere(stod, w.db, env, f))
  {
    hide Inv, FilteredIds, Holder, Strings, StringPasses, RealPasses, CompareText, CompareNumber, NumberSafe, Operator;
    var env2 := ExecWhere(stod, w.db, env, f);
    forall id ensures id in Bound(env2, f.variable) ==> id in Bound(env, f.variable) { KeptIs(stod, w.db, env, f, id); }
    forall id, v | Holder(w, env, f, id, v) && Strings(stod, f, v) && Operator(f.op)
      ensures id in Bound(env2, f.variable) <==> StringPasses(f.op, v, CompareText(f))
    {
      StringKept(stod, w, env, f, id, v);
    }
    forall id, v, x | Holder(w, env, f, id, v) && IsNumber(stod, f, v, x) && NumberTest(stod, env, f, x)
      ensures id in Bound(env2, f.variable) <==> RealPasses(f.op, x, CompareNumber(stod, f).value)
    {
      NumberKept(stod, w, env, f, id, v, x);
    }
  }

  lemma MatchWhereThen(stod: Stod, m: Machine, path: Path<Lit>, c: Clause<Lit>, items: seq<Item<Lit>>, n: Machine)
    requires c.Where? && m.status.Running? && TryFused(stod, m.db, m.env, [path], FilterOf(c)).None?
    requires StatementRuns(stod, m, [Match([path]), c, Return(items)], n)
    ensures var env := ExecWhere(stod, m.db, MatchPath(stod, m.db, m.env, path), FilterOf(c));
      ClauseStep(stod, m.(env := env), Return(items), n)
  {
    hide MatchPath, UnwindRuns, ExecWhere, TryFused, ReturnText;
    var stmt := [Match([path]), c, Return(items)];
    var m1 := FirstClause(stod, m, stmt, n);
    assert stmt[1..] == [c, Return(items)] && stmt[1..][1..] == [Return(items)];
    OnePathOnly(stod, m.db, m.env, path);
    var m2 := FirstClause(stod, m1, stmt[1..], n);
    hide StatementRuns;
    LastClause(stod, m2, Return(items), n);
  }

  /** MATCH path WHERE x.key op value RETURN items, where the two are not fused: the rows are those of the
      walks, with the filter's list cut down by the stored values. */
  lemma MatchWhereReturn(stod: Stod, w: World, path: Path<Lit>, c: Clause<Lit>, items: seq<Item<Lit>>, n: Machine)
    requires Inv(stod, w) && GoodMatch(w, path) && ItemsReadable(w, items) && c.Where? && c.variable != "" && c.property != ""
    requires TryFused(stod, w.db, FRESH, [path], FilterOf(c)).None?
    requires StatementRuns(stod, Start(w.db), [Match([path]), c, Return(items)], n)
    ensures n.status.Running? && n.db == w.db && Answered(w, n.env, items, n.result)
    ensures exists env :: Walked(stod, w, path, env) && FilteredOrSame(stod, w, env, FilterOf(c), n.env)
  {
    hide Inv, MatchPath, StatementRuns, ClauseStep, ItemsReadable, Walked, Answered, GoodMatch, ExecWhere, TryFused, FilteredBy;
    MatchWhereThen(stod, Start(w.db), path, c, items, n);
    MatchWalks(stod, w, FRESH, path);
    var env := MatchPath(stod, w.db, FRESH, path);
    var env2 := ExecWhere(stod, w.db, env, FilterOf(c));
    if c.variable in env.context {
      WhereFilters(stod, w, env, FilterOf(c));
    } else {
      assert env2 == env by { UnboundWhere(stod, w.db, env, FilterOf(c)); }
    }
    ReturnAnswers(stod, w, Start(w.db).(env := env2), items, n);
    assert FilteredOrSame(stod, w, env, FilterOf(c), n.env);
  }

  /** A filter on a variable that is not bound does nothing. */
  ghost predicate FilteredOrSame(stod: Stod, w: World, env1: Env, f: Filter, env2: Env) {
    if f.variable in env1.context then FilteredBy(stod, w, env1, f, env2) else env2 == env1
  }

  lemma UnboundWhere(stod: Stod, d: Db, env: Env, f: Filter)
    requires f.variable !in env.context
    ensures ExecWhere(stod, d, env, f) == env
  {
  }

  // ---- the fused form ----

  lemma {:induction false} InsertDistinct(ids: seq<u64>, x: u64)
    requires Distinct(ids) && x !in ids
    ensures Distinct(Insert(ids, x)) && forall y :: y in Insert(ids, x) <==> y == x || y in ids
  {
    if ids != [] && x > ids[0] {
      assert forall y :: y in ids <==> y == ids[0] || y in ids[1..];
      assert ids[0] !in ids[1..];
      InsertDistinct(ids[1..], x);
    }
  }

  lemma {:induction false} SortDistinct(ids: seq<u64>)
    requires Distinct(ids)
    ensures Distinct(Sort(ids)) && forall y :: y in Sort(ids) <==> y in ids
  {
    if ids != [] {
      assert forall y :: y in ids <==> y == ids[0] || y in ids[1..];
      assert ids[0] !in ids[1..];
      SortDistinct(ids[1..]);
      InsertDistinct(Sort(ids[1..]), ids[0]);
    }
  }

  lemma {:induction false} IntersectDistinct(a: seq<u64>, b: seq<u64>)
    requires Distinct(a)
    ensures Distinct(Intersect(a, b)) && forall x :: x in Intersect(a, b) ==> x in a
    decreases |a| + |b|
  {
    if a != [] && b != [] {
      assert forall x :: x in a <==> x == a[0] || x in a[1..];
      assert a[0] !in a[1..];
      if a[0] < b[0] {
        IntersectDistinct(a[1..], b);
      } else if b[0] < a[0] {
        IntersectDistinct(a, b[1..]);
      } else {
        IntersectDistinct(a[1..], b[1..]);
        var r := Intersect(a[1..], b[1..]);
        assert a[0] !in r && Intersect(a, b) == [a[0]] + r;
        assert forall i :: 0 <= i < |r| ==> r[i] in r;
      }
    }
  }

  lemma {:induction false} SameLength(a: seq<u64>, b: seq<u64>)
    requires Distinct(a) && Distinct(b) && forall x :: x in a <==> x in b
    ensures |a| == |b|
  {
    SizeIs(a);
    SizeIs(b);
    assert Members(a) == Members(b);
  }

  function Members(a: seq<u64>): set<u64> {
    set x | x in a
  }

  lemma {:induction false} SizeIs(a: seq<u64>)
    requires Distinct(a)
    ensures |Members(a)| == |a|
  {
    if a == [] {
      assert Members(a) == {};
    } else {
      var n := |a| - 1;
      SizeIs(a[..n]);
      assert a[n] !in a[..n];
      assert forall x :: x in a <==> x in a[..n] || x == a[n];
      assert Members(a) == Members(a[..n]) + {a[n]};
    }
  }

  /** The answer, when every item is about the same variable, depends on its list alone. */
  function RowAt(d: Db, items: seq<Item<Lit>>, id: u64): (cs: seq<Column>)
    ensures |cs| == |items|
  {
    seq(|items|, i requires 0 <= i < |items| => Column(Alias(items[i]), CellFor(d, items[i].expr, id)))
  }

  ghost predicate About(items: seq<Item<Lit>>, x: string) {
    items != [] && forall j :: 0 <= j < |items| ==> ItemVariable(items[j]) == x
  }

  lemma {:induction false} RowsAbout(env: Env, items: seq<Item<Lit>>, x: string)
    requires About(items, x) && x != ""
    ensures RowCount(env, items) == if Bound(env, x) == [] then 1 else |Bound(env, x)|
  {
    hide ItemVariable, Bound;
    RowsAre(env, items);
    assert ItemVariable(items[0]) == x;
  }

  lemma AnyIsShowable(w: World, env: Env, items: seq<Item<Lit>>)
    requires ItemsReadable(w, items)
    ensures AllShowable(w, env, items)
  {
    hide ExprShowable, GoodItem, Bound;
  }

  /** The same rows as sets, and as many. */
  ghost predicate SameRows(a: seq<seq<Column>>, b: seq<seq<Column>>) {
    |a| == |b| && forall r :: r in a <==> r in b
  }

  lemma RowAtIs(d: Db, env: Env, items: seq<Item<Lit>>, x: string, i: nat)
    requires About(items, x) && i < |Bound(env, x)|
    ensures RowOf(d, env, items, i) == RowAt(d, items, Bound(env, x)[i])
  {
    hide ItemVariable, CellFor, Alias, Bound;
  }

  lemma NoRow(d: Db, env: Env, env': Env, items: seq<Item<Lit>>, x: string)
    requires About(items, x) && Bound(env, x) == [] && Bound(env', x) == []
    ensures RowOf(d, env, items, 0) == RowOf(d, env', items, 0)
  {
    hide ItemVariable, CellFor, Alias, Bound;
  }

  lemma SameListSameRows(d: Db, env: Env, env': Env, items: seq<Item<Lit>>, x: string)
    requires About(items, x) && x != "" && Distinct(Bound(env, x)) && Distinct(Bound(env', x))
    requires forall id :: id in Bound(env, x) <==> id in Bound(env', x)
    ensures SameRows(RowsOf(d, env, items, RowCount(env, items)), RowsOf(d, env', items, RowCount(env', items)))
  {
    hide RowOf, RowCount, About, Distinct, RowAt;
    var a, b := Bound(env, x), Bound(env', x);
    SameLength(a, b);
    RowsAbout(env, items, x);
    RowsAbout(env', items, x);
    if a == [] {
      NoRow(d, env, env', items, x);
      assert RowsOf(d, env, items, 1) == RowsOf(d, env', items, 1);
    } else {
      assert a[0] in b;
      RowsComeFrom(d, env, env', items, x);
      RowsComeFrom(d, env', env, items, x);
    }
  }

  lemma RowsComeFrom(d: Db, env: Env, env': Env, items: seq<Item<Lit>>, x: string)
    requires About(items, x) && RowCount(env, items) == |Bound(env, x)| && RowCount(env', items) == |Bound(env', x)|
    requires forall id :: id in Bound(env, x) ==> id in Bound(env', x)
    ensures forall r :: r in RowsOf(d, env, items, RowCount(env, items)) ==> r in RowsOf(d, env', items, RowCount(env', items))
  {
    hide RowOf, RowCount, About, RowAt, Bound;
    var a, b := Bound(env, x), Bound(env', x);
    var rows, rows' := RowsOf(d, env, items, |a|), RowsOf(d, env', items, |b|);
    forall r | r in rows ensures r in rows' {
      var i :| 0 <= i < |rows| && rows[i] == r;
      assert a[i] in a;
      var j :| 0 <= j < |b| && b[j] == a[i];
      RowAtIs(d, env, items, x, i);
      RowAtIs(d, env', items, x, j);
      assert rows'[j] == r;
    }
  }

  lemma FusedThen(stod: Stod, m: Machine, paths: seq<Path<Lit>>, c: Clause<Lit>, items: seq<Item<Lit>>, n: Machine)
    requires c.Where? && m.status.Running? && TryFused(stod, m.db, m.env, paths, FilterOf(c)).Some?
    requires StatementRuns(stod, m, [Match(paths), c, Return(items)], n)
    ensures n == m.(env := TryFused(stod, m.db, m.env, paths, FilterOf(c)).value, result := n.result)
    ensures n.result == ReturnText(m.db, n.env, items)
  {
    hide UnwindRuns, TryFused, ReturnText;
    var stmt := [Match(paths), c, Return(items)];
    var m1 := m.(env := TryFused(stod, m.db, m.env, paths, FilterOf(c)).value);
    assert stmt[2..] == [Return(items)];
    assert StatementRuns(stod, m1, stmt[2..], n);
    hide StatementRuns;
    LastClause(stod, m1, Return(items), n);
  }

  lemma PlainThen(stod: Stod, m: Machine, paths: seq<Path<Lit>>, c: Clause<Lit>, items: seq<Item<Lit>>, n: Machine)
    requires c.Where? && m.status.Running?
    requires ClausesRun(stod, m, [Match(paths), c, Return(items)], n)
    ensures n == m.(env := MatchThenWhere(stod, m.db, m.env, paths, FilterOf(c)), result := n.result)
    ensures n.result == ReturnText(m.db, n.env, items)
  {
    hide MatchPaths, ExecWhere, ReturnText;
    var cs := [Match(paths), c, Return(items)];
    var m1 := NextClause(stod, m, cs, n);
    var m2 := NextClause(stod, m1, cs[1..], n);
    var m3 := NextClause(stod, m2, cs[1..][1..], n);
    assert cs[1..][1..][1..] == [];
  }

  /** The first of some clauses that are run one after the other. */
  lemma NextClause(stod: Stod, m: Machine, cs: seq<Clause<Lit>>, n: Machine) returns (mid: Machine)
    requires cs != [] && ClausesRun(stod, m, cs, n)
    ensures ClauseStep(stod, m, cs[0], mid)
    ensures if mid.status.Running? then ClausesRun(stod, mid, cs[1..], n) else n == mid
    ensures mid.status.Running? && cs[1..] == [] ==> n == mid
  {
    hide ClauseStep;
    mid :| ClauseStep(stod, m, cs[0], mid) && ClausesGoOn(stod, mid, cs[1..], n);
  }

  /** One labelled node without inline properties: the statement, which fuses MATCH and WHERE, answers the
      same rows as the clauses one after the other. */
  lemma FusedSameRows(stod: Stod, w: World, paths: seq<Path<Lit>>, c: Clause<Lit>, items: seq<Item<Lit>>, n: Machine, n': Machine)
    requires Inv(stod, w) && c.Where? && TryFused(stod, w.db, FRESH, paths, FilterOf(c)).Some?
    requires var node := paths[0][0].node;
      && node.properties == [] && NulFree(node.lbl) && NulFree(c.property) && ScanExact(w, node.lbl)
      && About(items, node.variable) && ItemsReadable(w, items)
    requires StatementRuns(stod, Start(w.db), [Match(paths), c, Return(items)], n)
    requires ClausesRun(stod, Start(w.db), [Match(paths), c, Return(items)], n')
    ensures n.db == n'.db == w.db && SameRows(ReadAnswer(n.result), ReadAnswer(n'.result))
  {
    hide Inv, StatementRuns, ClausesRun, MatchThenWhere, ItemsReadable, AllShowable, ReturnText, ReadAnswer, About, SameRows, RowsOf, RowCount,
      NodesByProperty, IteratedByLabel, Intersect, Sort, CompareText, NulFree, ScanExact, Distinct, HasCanon, LastText;
    var m, f, node := Start(w.db), FilterOf(c), paths[0][0].node;
    FusedThen(stod, m, paths, c, items, n);
    PlainThen(stod, m, paths, c, items, n');
    FusedAgrees(stod, w, FRESH, paths, f);
    SlowPath(stod, w.db, FRESH, paths, f);
    LookupAnswers(stod, w, node.lbl, f.property, CompareText(f));
    ScannedDistinct(w, node.lbl, NodesByProperty(stod, w.db, node.lbl, f.property, CompareText(f)));
    SameListSameRows(w.db, n.env, n'.env, items, node.variable);
    AnyIsShowable(w, n.env, items);
    AnyIsShowable(w, n'.env, items);
    AnswerIsRows(stod, w, n.env, items);
    AnswerIsRows(stod, w, n'.env, items);
  }

  lemma ScannedDistinct(w: World, lbl: string, found: seq<u64>)
    requires ScanExact(w, lbl)
    ensures Distinct(Intersect(Sort(IteratedByLabel(w.db, lbl)), Sort(found))) && Distinct<u64>([])
  {
    hide IteratedByLabel, NodesByLabel, Intersect, Sort;
    SortDistinct(IteratedByLabel(w.db, lbl));
    IntersectDistinct(Sort(IteratedByLabel(w.db, lbl)), Sort(found));
  }

  // ---- MATCH and SET ----

  /** The texts after the assignments: the entries of every node an assigned variable is bound to with the
      assignments to it applied in order; every other node keeps its text. */
  ghost predicate TextsSet(d: Db, env: Env, xs: seq<Assignment<Lit>>, start: map<u64, seq<Entry>>, d': Db)
    requires SetResults.LiteralAssignments(xs)
  {
    && (forall id :: id in start && SetResults.Touched(env, xs, id) ==>
          NodeText(d', id) == Print(SetResults.Applied(env, xs, id, start[id])))
    && (forall id :: !(id in start && SetResults.Touched(env, xs, id)) ==> NodeText(d', id) == NodeText(d, id))
  }

  lemma SetLeaves(stod: Stod, w: World, m: Machine, xs: seq<Assignment<Lit>>, start: map<u64, seq<Entry>>, n: Machine)
    requires Inv(stod, w) && m.db == w.db && m.status.Running? && ClauseStep(stod, m, Set(xs), n)
    requires SetResults.Assignable(w.db, m.env, xs, start)
    ensures n.status.Running? && n.env == m.env && TextsSet(w.db, m.env, xs, start, n.db)
    ensures SetResults.KeysDistinct(start) && SetResults.OwnLabels(w, m.env, xs) ==> Inv(stod, w.(db := n.db))
  {
    hide Inv, SetClause.AllSteps, SetClause.Collect, SetClause.OrdersFit, SetClause.AfterWrites, SetClause.Deferred,
      SetResults.Assignable, SetResults.Applied, SetResults.KeysDistinct, SetResults.OwnLabels, SetResults.Touched, NodeText, Print;
    SetResults.SetDoesNotThrow(w.db, m.env, xs, start);
    assert SetResults.LiteralAssignments(xs) by { AssignableIsLiteral(w.db, m.env, xs, start); }
    var ws :| SetWrites(stod, m, SetClause.AllSteps(m.env, xs), ws, n);
    SetResults.SetTexts(stod, w.db, m.env, xs, start, ws);
    if SetResults.KeysDistinct(start) && SetResults.OwnLabels(w, m.env, xs) {
      SetResults.SetKeepsInv(stod, w, m.env, xs, start, ws);
    }
  }

  lemma AssignableIsLiteral(d: Db, env: Env, xs: seq<Assignment<Lit>>, start: map<u64, seq<Entry>>)
    requires SetResults.Assignable(d, env, xs, start)
    ensures SetResults.LiteralAssignments(xs)
  {
  }

  /** MATCH path SET assignments: the nodes the walks bind get their texts, provided these can be updated. */
  lemma MatchSet(stod: Stod, w: World, path: Path<Lit>, xs: seq<Assignment<Lit>>, start: map<u64, seq<Entry>>, n: Machine)
    requires Inv(stod, w) && GoodMatch(w, path) && SetResults.LiteralAssignments(xs)
    requires StatementRuns(stod, Start(w.db), [Match([path]), Set(xs)], n)
    ensures Walked(stod, w, path, n.env)
    ensures SetResults.Assignable(w.db, n.env, xs, start) ==>
      && n.status.Running? && TextsSet(w.db, n.env, xs, start, n.db)
      && (SetResults.KeysDistinct(start) && SetResults.OwnLabels(w, n.env, xs) ==> Inv(stod, w.(db := n.db)))
  {
    hide Inv, MatchPath, StatementRuns, Walked, GoodMatch, TextsSet, SetResults.Assignable, SetResults.KeysDistinct,
      SetResults.OwnLabels, SetWrites, SetClause.AllSteps, SetClause.Collect, SetResults.LiteralAssignments;
    MatchThen(stod, Start(w.db), path, Set(xs), n);
    MatchWalks(stod, w, FRESH, path);
    var m := Start(w.db).(env := MatchPath(stod, w.db, FRESH, path));
    assert n.env == m.env by { SetKeepsEnv(stod, m, xs, n); }
    if SetResults.Assignable(w.db, n.env, xs, start) {
      SetLeaves(stod, w, m, xs, start, n);
    }
  }

  lemma SetKeepsEnv(stod: Stod, m: Machine, xs: seq<Assignment<Lit>>, n: Machine)
    requires ClauseStep(stod, m, Set(xs), n)
    ensures n.env == m.env
  {
    hide SetClause.AllSteps, SetClause.Collect, SetClause.OrdersFit, SetClause.AfterWrites, SetClause.Deferred;
  }

  // ---- MATCH and DELETE ----

  /** Some listed variable is bound to the id. */
  ghost predicate Named(env: Env, vars: seq<string>, id: u64) {
    exists v :: v in vars && id in Bound(env, v)
  }

  /** The edge is listed, or on DETACH has an end at a listed live node. */
  ghost predicate Gone(w: World, env: Env, vars: seq<string>, detach: bool, e: u64) {
    e in w.edges &&
    (|| Named(env, vars, e)
     || (detach && Named(env, vars, w.edges[e].source) && NodeText(w.db, w.edges[e].source) != "")
     || (detach && Named(env, vars, w.edges[e].target) && NodeText(w.db, w.edges[e].target) != ""))
  }

  /** Exactly the listed nodes lose their text, exactly the edges that go are gone, and the listed variables
      are forgotten. */
  ghost predicate Deleted(w: World, env: Env, vars: seq<string>, detach: bool, d': Db, env': Env) {
    && (forall x :: NodeText(d', x) == if Named(env, vars, x) then "" else NodeText(w.db, x))
    && (forall e :: GetEdge(d', e) == if Gone(w, env, vars, detach, e) then None else GetEdge(w.db, e))
    && (forall x :: Bound(env', x) == if x in vars then [] else Bound(env, x))
    && (forall x :: x in env'.context <==> x in env.context && x !in vars)
  }

  lemma DeleteLeaves(stod: Stod, w: World, m: Machine, vars: seq<string>, detach: bool, n: Machine)
    requires Inv(stod, w) && m.db == w.db && m.status.Running? && ClauseStep(stod, m, Delete(vars, detach), n)
    ensures n.status.Running? && Deleted(w, m.env, vars, detach, n.db, n.env)
  {
    hide Inv, DeleteClause.DeleteAll, DeleteClause.DeletedIds, DeleteClause.Forget, GetEdge, NodeText, Bound;
    var ids := DeleteClause.DeletedIds(m.env, vars);
    DeleteClause.DeletedIdsAre(m.env, vars);
    assert forall id :: id in ids <==> Named(m.env, vars, id);
    DeleteClause.ForgottenAre(m.env, vars);
    if detach {
      DeleteClause.DetachLeavesNoDanglingEdge(stod, w, ids);
      assert forall e :: DeleteClause.Hit(w, ids, e) <==> Gone(w, m.env, vars, detach, e);
    } else {
      DeleteClause.PlainDeleteIs(stod, w, ids);
      forall e ensures GetEdge(n.db, e) == if Gone(w, m.env, vars, detach, e) then None else GetEdge(w.db, e) {
        EdgeIs(stod, w, e);
      }
    }
  }

  /** MATCH path DELETE variables, with or without DETACH. */
  lemma MatchDelete(stod: Stod, w: World, path: Path<Lit>, vars: seq<string>, detach: bool, n: Machine)
    requires Inv(stod, w) && GoodMatch(w, path)
    requires StatementRuns(stod, Start(w.db), [Match([path]), Delete(vars, detach)], n)
    ensures n.status.Running?
    ensures exists env :: Walked(stod, w, path, env) && Deleted(w, env, vars, detach, n.db, n.env)
  {
    hide Inv, MatchPath, StatementRuns, Walked, GoodMatch, Deleted, ClauseStep;
    MatchThen(stod, Start(w.db), path, Delete(vars, detach), n);
    MatchWalks(stod, w, FRESH, path);
    DeleteLeaves(stod, w, Start(w.db).(env := MatchPath(stod, w.db, FRESH, path)), vars, detach, n);
  }

  // ---- UNWIND ----

  /** MATCH and RETURN inside UNWIND, where they are never fused with anything. */
  lemma InnerMatchReturn(stod: Stod, w: World, m: Machine, path: Path<Lit>, items: seq<Item<Lit>>, n: Machine)
    requires Inv(stod, w) && GoodMatch(w, path) && ItemsReadable(w, items) && m.db == w.db && m.status.Running?
    requires m.env.context == map[] && m.env.labels == map[]
    requires ClausesRun(stod, m, [Match([path]), Return(items)], n)
    ensures n.status.Running? && n.db == w.db && Walked(stod, w, path, n.env) && Answered(w, n.env, items, n.result)
  {
    hide Inv, MatchPath, ItemsReadable, Walked, Answered, GoodMatch;
    var cs := [Match([path]), Return(items)];
    var m1 := NextClause(stod, m, cs, n);
    OnePathOnly(stod, m.db, m.env, path);
    assert m1.status.Running? && m1.db == w.db && m1.env == MatchPath(stod, m.db, m.env, path) by { hide ReturnText, ClausesRun; }
    assert cs[1..] == [Return(items)] && cs[1..][1..] == [];
    hide ClauseStep;
    var m2 := NextClause(stod, m1, cs[1..], n);
    hide ClausesRun;
    MatchWalks(stod, w, m.env, path);
    ReturnAnswers(stod, w, m1, items, m2);
  }

  /** UNWIND list AS alias MATCH path RETURN items, for a list with elements: every element runs the two
      clauses from empty bindings, so the answer is that of the walks, and the database stays. */
  lemma {:induction false} UnwindMatchReturn(stod: Stod, w: World, m: Machine, elements: seq<Expr<Lit>>, alias: string,
                                            path: Path<Lit>, items: seq<Item<Lit>>, n: Machine)
    requires Inv(stod, w) && GoodMatch(w, path) && ItemsReadable(w, items) && m.db == w.db && m.status.Running?
    requires m.env.context == map[] && m.env.labels == map[]
    requires UnwindRuns(stod, m, elements, alias, [Match([path]), Return(items)], n)
    ensures n.status.Running? && n.db == w.db && n.env.context == map[]
    ensures if elements == [] then n.result == m.result
            else exists env :: Walked(stod, w, path, env) && Answered(w, env, items, n.result)
    decreases |elements|
  {
    hide Inv, ItemsReadable, Walked, Answered, GoodMatch, ClausesRun, BindingOf;
    var cs := [Match([path]), Return(items)];
    if elements != [] {
      var mid :| ClausesRun(stod, BindAlias(m, alias, elements[0]), cs, mid) && UnwindGoesOn(stod, mid, elements[1..], alias, cs, n);
      InnerMatchReturn(stod, w, BindAlias(m, alias, elements[0]), path, items, mid);
      UnwindMatchReturn(stod, w, Cleared(mid), elements[1..], alias, path, items, n);
    }
  }

  /** The whole statement. */
  lemma UnwindStatementAnswers(stod: Stod, w: World, elements: seq<Expr<Lit>>, alias: string, path: Path<Lit>,
                               items: seq<Item<Lit>>, n: Machine)
    requires Inv(stod, w) && GoodMatch(w, path) && ItemsReadable(w, items)
    requires StatementRuns(stod, Start(w.db), [Unwind(ListLiteral(elements), alias), Match([path]), Return(items)], n)
    ensures n.status.Running? && n.db == w.db
    ensures exists env :: Walked(stod, w, path, env) && Answered(w, env, items, n.result)
  {
    hide Inv, ItemsReadable, Walked, Answered, GoodMatch, ClausesRun, MatchPath;
    var stmt := [Unwind(ListLiteral(elements), alias), Match([path]), Return(items)];
    assert stmt[1..] == [Match([path]), Return(items)];
    if elements != [] {
      assert UnwindRuns(stod, Start(w.db), elements, alias, stmt[1..], n);
      hide UnwindRuns, StatementRuns;
      UnwindMatchReturn(stod, w, Start(w.db), elements, alias, path, items, n);
    } else {
      var mid := FirstClause(stod, Start(w.db), stmt, n);
      assert mid == Start(w.db);
      hide UnwindRuns, StatementRuns;
      MatchReturn(stod, w, path, items, n);
    }
  }

  /** An UNWIND inside an UNWIND does nothing. */
  lemma NestedUnwindIsSkipped(stod: Stod, m: Machine, list: Expr<Lit>, alias: string, rest: seq<Clause<Lit>>, n: Machine)
    requires m.status.Running?
    ensures ClausesRun(stod, m, [Unwind(list, alias)] + rest, n) <==> ClausesRun(stod, m, rest, n)
  {
    var cs := [Unwind(list, alias)] + rest;
    assert cs[1..] == rest;
    if ClausesRun(stod, m, cs, n) {
      var mid := NextClause(stod, m, cs, n);
    }
    if ClausesRun(stod, m, rest, n) {
      assert ClauseStep(stod, m, cs[0], m) && ClausesGoOn(stod, m, rest, n);
    }
  }

  // ---- CREATE ----

  /** CREATE of named paths with literal properties, as a statement. */
  lemma CreateStatement(stod: Stod, w: World, paths: seq<Path<Lit>>, n: Machine) returns (w': World)
    requires Inv(stod, w) && CreateResults.GoodPaths(paths) && CreateResults.Room(w, 2 * CreateResults.Elements(paths))
    requires StatementRuns(stod, Start(w.db), [Create(paths)], n)
    ensures n.status.Running? && n.db == w'.db && Inv(stod, w') && CreateResults.Grows(w, w')
    ensures CreateResults.PathsMade(w, FRESH, w', n.env, paths)
  {
    hide Inv, StatementRuns, CreatePaths, CreateResults.GoodPaths, CreateResults.Grows, CreateResults.PathsMade,
      CreateResults.Elements;
    LastClause(stod, Start(w.db), Create(paths), n);
    w' := CreateResults.CreateAllPaths(stod, w, FRESH, paths);
  }
}
