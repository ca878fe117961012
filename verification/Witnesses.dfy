/** Where a promised law fails: a database that a run of the storage reaches, and what happens in it. */
module Witnesses {
  import opened Bytes
  import opened SortableDouble
  import opened Ast
  import opened Json
  import opened JsonLaws
  import opened Store
  import opened PropertyIndex
  import opened Runs
  import opened RunResults
  import opened LabelScans
  import opened Ranges
  import opened Matching
  import opened Where
  import opened WhereResults
  import opened CreateClause
  import Execution

  // ---- a database with one node ----

  function TextOne(key: string, v: Value): string {
    Print([Entry(key, v)])
  }

  /** One node with one property, whose id is 1. */
  function OneNode(stod: Stod, lbl: string, key: string, v: Value): World {
    Step(stod, START, CreateNodeOp(lbl, TextOne(key, v)))
  }

  lemma OneNodeIs(stod: Stod, lbl: string, key: string, v: Value)
    requires NulFree(lbl) && IsIdentifier(key) && WellFormedValue(v)
    ensures var w := OneNode(stod, lbl, key, v);
      && RunsTo(stod, START, [CreateNodeOp(lbl, TextOne(key, v))], w) && Inv(stod, w)
      && w.labels == map[1 := lbl] && w.deletedNodes == map[] && NodeText(w.db, 1) == TextOne(key, v)
      && Kept(w, 1)
  {
    hide Inv, Print, ToKey, IndexNode, Parse, ValidText, NulFree, Allocate, Pow256, TextOf, IsIdentifier, WellFormedValue,
      StartsWith;
    var op := CreateNodeOp(lbl, TextOne(key, v));
    OneTextIs(stod, key, v, key, "");
    StartInv(stod);
    assert Enabled(stod, START, op);
    StepKeepsInv(stod, START, op);
    var w := OneNode(stod, lbl, key, v);
    assert RunsTo(stod, w, [], w);
    assert [op][1..] == [];
    TextWritten(map[], 1, TextOne(key, v));
    NewNode(stod, EMPTY, lbl, TextOne(key, v));
  }

  lemma NewNode(stod: Stod, d: Db, lbl: string, text: string)
    requires ToKey(d.ids.next) !in d.nodes
    ensures var c := CreateNode(stod, d, lbl, text); c.ok && c.id == d.ids.next && c.db.nodes == d.nodes[ToKey(c.id) := text]
  {
    hide ToKey, IndexNode, Allocate;
  }

  /** What a text with one property holds. */
  lemma OneTextIs(stod: Stod, key: string, v: Value, key': string, value: string)
    requires IsIdentifier(key) && WellFormedValue(v)
    ensures var text := TextOne(key, v);
      && ValidText(text) && text != ""
      && (HasCanon(stod, text, key', value) <==> key' == key && Canon(stod, Erased(v)) == Canon(stod, value))
      && (forall x: u64 :: HasNumber(stod, text, key, x) <==> Erased(v) != "" && stod(Erased(v)) == Some(x))
  {
    hide Print, Parse, Canon, IsIdentifier, WellFormedValue;
    var es := [Entry(key, v)];
    assert WellFormed(es) by { assert WellFormedEntry(es[0]); }
    ParsePrint(es);
    PrintIsText(es);
    IdentifierNulFree(key);
    assert Parse(Print(es)) == [Field(key, Erased(v))];
    assert Field(key, Erased(v)) in Parse(Print(es));
  }

  lemma OneNodeIsCandidate(stod: Stod, lbl: string, key: string, v: Value, w: World)
    requires IsIdentifier(key) && WellFormedValue(v) && v != Str(key)
    requires w.labels == map[1 := lbl] && NodeText(w.db, 1) == TextOne(key, v)
    ensures Candidate(w, 1, lbl, key) && Live(w, 1)
  {
    hide Print, IsIdentifier, WellFormedValue, NodeText;
    var es := [Entry(key, v)];
    assert WellFormed(es) by { assert WellFormedEntry(es[0]); }
    PrintIsText(es);
    assert KeyFound(es, key) && DistinctKeys(es);
    assert PrintedFrom(w, 1, es, key);
  }

  function Equals(key: string, text: string): Filter {
    Filter("n", key, "=", Some(Literal(Lit(text, false))))
  }

  function GreaterThan(key: string, text: string): Filter {
    Filter("n", key, ">", Some(Literal(Lit(text, false))))
  }

  // ---- the index against the texts ----

  /** CREATE (:P {k: 1}); MATCH (n) SET n.k = 2, where n is bound without a label, leaves the node listed
      under 1. */
  lemma PlainUpdateBreaksIndex(stod: Stod)
    requires stod("1").Some? && stod("2") != stod("1")
    ensures var w := OneNode(stod, "P", "k", Num("1"));
            var w1 := w.(db := UpdateNode(w.db, 1, TextOne("k", Num("2"))));
      && RunsTo(stod, START, [CreateNodeOp("P", TextOne("k", Num("1")))], w) && Inv(stod, w) && !Inv(stod, w1)
      && 1 in NodesByProperty(stod, w1.db, "P", "k", "1") && !HasCanon(stod, NodeText(w1.db, 1), "k", "1")
  {
    hide Inv, TextOne, NodesByProperty, Canon, HasCanon, OneNode, ToKey, TextOf, RunsTo, ValidText;
    var w := OneNode(stod, "P", "k", Num("1"));
    var w1 := w.(db := UpdateNode(w.db, 1, TextOne("k", Num("2"))));
    assert IsIdentifier("k") && WellFormedValue(Num("1")) && WellFormedValue(Num("2"));
    OneNodeIs(stod, "P", "k", Num("1"));
    OneTextIs(stod, "k", Num("1"), "k", "1");
    OneTextIs(stod, "k", Num("2"), "k", "1");
    SameCanonSameNumber(stod, "2", "1");
    LookupAnswers(stod, w, "P", "k", "1");
    SameLookup(stod, w.db, w1.db, "P", "k", "1");
    TextWritten(w.db.nodes, 1, TextOne("k", Num("2")));
    if Inv(stod, w1) {
      LookupAnswers(stod, w1, "P", "k", "1");
      assert false;
    }
  }

  lemma SameLookup(stod: Stod, a: Db, b: Db, lbl: string, key: string, value: string)
    requires a.propIndex == b.propIndex
    ensures NodesByProperty(stod, a, lbl, key, value) == NodesByProperty(stod, b, lbl, key, value)
  {
  }

  /** CREATE (:P {age: 30.0}): WHERE n.age = 30 finds it through the index and not by the scan. */
  lemma EqualNumbersDifferentTexts(stod: Stod)
    requires stod("30").Some? && stod("30.0") == stod("30")
    ensures var (w, f) := (OneNode(stod, "P", "age", Num("30.0")), Equals("age", "30"));
      && RunsTo(stod, START, [CreateNodeOp("P", TextOne("age", Num("30.0")))], w)
      && 1 in FilteredIds(stod, w.db, f, "P", [1]) && 1 !in FullScan(stod, w.db, f, [1])
  {
    hide Inv, TextOne, HasCanon, OneNode, RunsTo, ValidText, NodesByProperty, NodePasses, FullScan, Intersect, Sort, GetValue,
      Candidate;
    var w, f := OneNode(stod, "P", "age", Num("30.0")), Equals("age", "30");
    assert IsIdentifier("age") && WellFormedValue(Num("30.0"));
    OneNodeIs(stod, "P", "age", Num("30.0"));
    OneTextIs(stod, "age", Num("30.0"), "age", "30");
    OneNodeIsCandidate(stod, "P", "age", Num("30.0"), w);
    StoredIs(stod, w, "P", "age", Num("30.0"));
    EqualityAt(stod, w, f, "P", 1);
    FullScanMembers(stod, w.db, f, [1]);
    IntersectedMembers([1], NodesByProperty(stod, w.db, "P", "age", "30"));
  }

  lemma StoredIs(stod: Stod, w: World, lbl: string, key: string, v: Value)
    requires IsIdentifier(key) && WellFormedValue(v) && v != Str(key) && NodeText(w.db, 1) == TextOne(key, v)
    ensures GetValue(NodeText(w.db, 1), key) == Erased(v)
  {
    hide Print, IsIdentifier, WellFormedValue, NodeText, GetValue;
    var es := [Entry(key, v)];
    assert WellFormed(es) by { assert WellFormedEntry(es[0]); }
    GetPrint(es, key);
    assert Picked(es, key) == 0;
  }

  /** CREATE (:P {a: 1}); MATCH (n:P) DELETE n: WHERE n.a = 1 still finds the node through the index; the
      full scan does not. */
  lemma DeletedNodeIsFound(stod: Stod)
    ensures var (w, f) := (OneNode(stod, "P", "a", Num("1")), Equals("a", "1"));
            var gone := Step(stod, w, DeleteNodeOp(1, false));
      && RunsTo(stod, w, [DeleteNodeOp(1, false)], gone) && NodeText(gone.db, 1) == ""
      && 1 in FilteredIds(stod, gone.db, f, "P", [1]) && 1 !in FullScan(stod, gone.db, f, [1])
  {
    hide Inv, TextOne, HasCanon, OneNode, ValidText, NodesByProperty, NodePasses, FullScan, Intersect, Sort, GetValue, Canon,
      ToKey, TextOf;
    var w, f := OneNode(stod, "P", "a", Num("1")), Equals("a", "1");
    var gone := Step(stod, w, DeleteNodeOp(1, false));
    assert IsIdentifier("a") && WellFormedValue(Num("1"));
    OneNodeIs(stod, "P", "a", Num("1"));
    OneTextIs(stod, "a", Num("1"), "a", "1");
    StepKeepsInv(stod, w, DeleteNodeOp(1, false));
    assert [DeleteNodeOp(1, false)][1..] == [];
    assert RunsTo(stod, gone, [], gone);
    TextWritten(w.db.nodes, 1, "");
    EqualityAt(stod, gone, f, "P", 1);
    FullScanMembers(stod, gone.db, f, [1]);
    IntersectedMembers([1], NodesByProperty(stod, gone.db, "P", "a", "1"));
  }

  /** CREATE (:P {x: "nan"}), with a text that reads as a NaN of positive sign: WHERE n.x > 1 finds it
      through the index, although a NaN compares with nothing. */
  lemma NaNIsFound(stod: Stod, nan: u64, one: u64)
    requires stod("nan") == Some(nan) && IsNaN(nan) && !Negative(nan) && stod("1") == Some(one) && !IsNaN(one)
    ensures var (w, f) := (OneNode(stod, "P", "x", Str("nan")), GreaterThan("x", "1"));
      && RunsTo(stod, START, [CreateNodeOp("P", TextOne("x", Str("nan")))], w)
      && !(forall id :: id in FilteredIds(stod, w.db, f, "P", [1]) <==> id in FullScan(stod, w.db, f, [1]))
  {
    hide Inv, TextOne, HasNumber, HasCanon, OneNode, RunsTo, ValidText, FilteredIds, FullScan, Candidate, IsNaN, Negative, NodeText;
    var w, f := OneNode(stod, "P", "x", Str("nan")), GreaterThan("x", "1");
    assert IsIdentifier("x") && WellFormedValue(Str("nan"));
    OneNodeIs(stod, "P", "x", Str("nan"));
    OneTextIs(stod, "x", Str("nan"), "x", "1");
    OneNodeIsCandidate(stod, "P", "x", Str("nan"), w);
    assert CompareNumber(stod, f) == Some(one);
    RangePathsAgreeIff(stod, w, f, "P", [1]);
    assert LastText(w, 1) == NodeText(w.db, 1) by { LastIsValid(stod, w, 1); }
    assert 1 in [1] && HasNumber(stod, LastText(w, 1), "x", nan) && Exceptional(">", nan, one);
  }

  // ---- labels, inline properties, empty lists ----

  /** CREATE (:A), (:AB): looking for A finds two nodes. */
  function TwoLabels(stod: Stod): World {
    Step(stod, Step(stod, START, CreateNodeOp("A", "{}")), CreateNodeOp("AB", "{}"))
  }

  lemma ExtendedLabelIsFound(stod: Stod)
    ensures var w := TwoLabels(stod);
      && RunsTo(stod, START, [CreateNodeOp("A", "{}"), CreateNodeOp("AB", "{}")], w)
      && w.labels == map[1 := "A", 2 := "AB"] && |NodesByLabel(w.db, "A")| > 1
  {
    hide Inv, ToKey, FromKey, IndexNode, Parse, NodesByLabel;
    var ops := [CreateNodeOp("A", "{}"), CreateNodeOp("AB", "{}")];
    var w1, w := Step(stod, START, ops[0]), TwoLabels(stod);
    NothingInPlain();
    StartInv(stod);
    StepKeepsInv(stod, START, ops[0]);
    NewNode(stod, EMPTY, "A", "{}");
    assert ToKey(2) != ToKey(1) by { assert FromKey(ToKey(2)) == 2 && FromKey(ToKey(1)) == 1; }
    NewNode(stod, w1.db, "AB", "{}");
    StepKeepsInv(stod, w1, ops[1]);
    TwoSteps(stod, START, ops[0], ops[1]);
    assert StartsWith(w.labels[2], "A") && w.labels[2] != "A";
    ExtendedScanTooLong(stod, w, "A");
    assert NodesLabelled(w, "A") == {1};
  }

  lemma TwoSteps(stod: Stod, w: World, a: Op, b: Op)
    requires Enabled(stod, w, a) && Enabled(stod, Step(stod, w, a), b)
    ensures RunsTo(stod, w, [a, b], Step(stod, Step(stod, w, a), b))
  {
    hide Enabled, Step;
    var w1 := Step(stod, w, a);
    var w2 := Step(stod, w1, b);
    assert [a, b][1..] == [b] && [b][1..] == [];
    assert RunsTo(stod, w2, [], w2);
    assert RunsTo(stod, w1, [b], w2);
  }

  lemma NothingInPlain()
    ensures ValidText("{}")
  {
    assert WellFormed([]) && Print([]) == "{}";
    ParsePrint([]);
  }

  /** MATCH (n:P {b: 2}) WHERE n.a = 1. */
  function InlineAndFilter(): Node<Lit> {
    Node("n", "P", [Prop("b", Literal(Lit("2", false)))])
  }

  /** CREATE (:P {a: 1}): the fused clauses find it, although it has no b. */
  lemma FusedIgnoresInline(stod: Stod)
    ensures var (w, paths, f) := (OneNode(stod, "P", "a", Num("1")), [[Element(InlineAndFilter(), None)]], Equals("a", "1"));
      && RunsTo(stod, START, [CreateNodeOp("P", TextOne("a", Num("1")))], w)
      && TryFused(stod, w.db, FRESH, paths, f).Some?
      && !(forall x :: x in Bound(TryFused(stod, w.db, FRESH, paths, f).value, "n")
                  <==> x in Bound(MatchThenWhere(stod, w.db, FRESH, paths, f), "n"))
  {
    hide Inv, TextOne, HasCanon, OneNode, RunsTo, ValidText, MatchThenWhere, BindNode, NodesByProperty, NodeText, Canon;
    var w, f := OneNode(stod, "P", "a", Num("1")), Equals("a", "1");
    var node := InlineAndFilter();
    var paths := [[Element(node, None)]];
    assert IsIdentifier("a") && WellFormedValue(Num("1"));
    OneNodeIs(stod, "P", "a", Num("1"));
    OneTextIs(stod, "a", Num("1"), "a", "1");
    OneTextIs(stod, "a", Num("1"), "b", "2");
    LastIsValid(stod, w, 1);
    assert NulFreeNames("P", node.properties) && AllLiterals(node.properties);
    FusedWithInlinePropertiesIff(stod, w, FRESH, paths, f);
    assert !HasAll(stod, LastText(w, 1), node.properties) by { assert node.properties[0].key == "b"; }
    assert 1 in w.labels && HasCanon(stod, LastText(w, 1), f.property, CompareText(f));
  }

  /** UNWIND [] AS x CREATE (:P), run in an empty database: a node is there afterwards. */
  lemma EmptyUnwindCreates(stod: Stod)
    ensures var stmt := [Unwind(ListLiteral([]), "x"), Create([[Element(Node("", "P", []), None)]])];
            var c := CreateNode(stod, EMPTY, "P", "{}");
            var n := Execution.Machine(c.db, FRESH, "", Execution.Running);
      && Execution.StatementRuns(stod, Execution.Machine(EMPTY, FRESH, "", Execution.Running), stmt, n)
      && c.ok && NodeText(c.db, 1) == "{}"
  {
    hide CreateNode, TextOf, ToKey;
    var path := [Element(Node("", "P", []), None)];
    var create := Create([path]);
    var stmt := [Unwind(ListLiteral([]), "x"), create];
    var c := CreateNode(stod, EMPTY, "P", "{}");
    var m := Execution.Machine(EMPTY, FRESH, "", Execution.Running);
    var n := Execution.Machine(c.db, FRESH, "", Execution.Running);
    NewNode(stod, EMPTY, "P", "{}");
    TextWritten(EMPTY.nodes, 1, "{}");
    CreatesOneNode(stod, EMPTY, FRESH, "P");
    assert Execution.ClauseStep(stod, m, create, n);
    assert [create][1..] == [] && Execution.StatementGoesOn(stod, n, [], n);
    assert Execution.StatementRuns(stod, m, [create], n);
    assert stmt[1..] == [create] && Execution.ClauseStep(stod, m, stmt[0], m);
    assert Execution.StatementGoesOn(stod, m, stmt[1..], n);
  }

  lemma CreatesOneNode(stod: Stod, d: Db, env: Env, lbl: string)
    requires env == FRESH && ToKey(d.ids.next) !in d.nodes
    ensures CreatePaths(stod, d, env, [[Element(Node("", lbl, []), None)]])
         == Outcome(CreateNode(stod, d, lbl, "{}").db, env, true)
  {
    hide CreateNode, ToKey;
    var path := [Element(Node("", lbl, []), None)];
    NewNode(stod, d, lbl, "{}");
    assert EvalProps([], env.unwind) == "{}";
    assert CreatePaths(stod, d, env, [path][..0]) == Outcome(d, env, true);
    assert CreateElements(stod, d, env, path, 0) == Outcome(d, env, true);
    assert CreateElements(stod, d, env, path, 1) == CreateElement(stod, d, env, path, 0);
  }
}
