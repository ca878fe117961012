/** CREATE and UNWIND (executor.cpp). */
module CreateClause {
  import opened Bytes
  import opened Ast
  import opened Json
  import opened JsonLaws
  import opened Store
  import opened Matching

  // ---- evaluate_properties ----

  /** The text of one property value; what cannot be resolved prints nothing. */
  function PropText(v: Expr<Lit>, unwind: map<string, Binding>): string {
    match v
    case Literal(l) => ValueText(l.text, l.isString)
    case PropertyAccess(x, k) =>
      if x in unwind && k in unwind[x].properties
      then ValueText(unwind[x].properties[k], k in unwind[x].isString && unwind[x].isString[k])
      else ""
    case _ => ""
  }

  function EvalList(props: seq<Prop<Lit>>, unwind: map<string, Binding>): string {
    if props == [] then "" else
    var n := |props| - 1;
    EvalList(props[..n], unwind) + (if n == 0 then "" else ", ") + PropLine(props[n], unwind)
  }

  function PropLine(p: Prop<Lit>, unwind: map<string, Binding>): string {
    "\"" + (p.key + ("\": " + PropText(p.value, unwind)))
  }

  function EvalProps(props: seq<Prop<Lit>>, unwind: map<string, Binding>): string {
    "{" + EvalList(props, unwind) + "}"
  }

  /** The entries literal properties stand for. */
  function EntriesOf(props: seq<Prop<Lit>>): (es: seq<Entry>)
    requires AllLiterals(props)
    ensures |es| == |props|
  {
    seq(|props|, i requires 0 <= i < |props| => EntryOf(props[i]))
  }

  function EntryOf(p: Prop<Lit>): Entry
    requires p.value.Literal?
  {
    Entry(p.key, if p.value.lit.isString then Str(p.value.lit.text) else Num(p.value.lit.text))
  }

  lemma LineIsEntry(p: Prop<Lit>, unwind: map<string, Binding>)
    requires p.value.Literal?
    ensures PropLine(p, unwind) == PrintEntry(EntryOf(p))
  {
    hide Quoted;
  }

  lemma {:induction false} EvalListIsPrintList(props: seq<Prop<Lit>>, unwind: map<string, Binding>)
    requires AllLiterals(props)
    ensures EvalList(props, unwind) == PrintList(EntriesOf(props))
  {
    hide PrintEntry, PropLine, PrintList;
    EmptyList();
    if props != [] {
      var n := |props| - 1;
      var es := EntriesOf(props);
      EvalListIsPrintList(props[..n], unwind);
      assert EntriesOf(props[..n]) == es[..n] && es == es[..n] + [es[n]];
      LineIsEntry(props[n], unwind);
      if n > 0 { PrintListAppend(es[..n], es[n]); }
    }
  }

  /** Property texts of literals are printed texts. */
  lemma EvalIsPrint(props: seq<Prop<Lit>>, unwind: map<string, Binding>)
    requires AllLiterals(props)
    ensures EvalProps(props, unwind) == Print(EntriesOf(props))
  {
    EvalListIsPrintList(props, unwind);
  }

  // ---- CREATE ----

  /** What a step leaves: the database, the symbol tables, and whether it went through. */
  datatype Outcome = Outcome(db: Db, env: Env, ok: bool)

  datatype NodeOutcome = NodeOutcome(after: Outcome, id: u64)

  /** The node a pattern stands for: the first one bound to its variable, or a new one. */
  function EnsureNode(stod: Stod, d: Db, env: Env, node: Node<Lit>): NodeOutcome {
    if node.variable != "" && Bound(env, node.variable) != [] then
      NodeOutcome(Outcome(d, env, true), Bound(env, node.variable)[0])
    else
      var c := CreateNode(stod, d, node.lbl, EvalProps(node.properties, env.unwind));
      NodeOutcome(Outcome(c.db, if c.ok then Bind(env, node.variable, c.id) else env, c.ok), c.id)
  }

  function Bind(env: Env, x: string, id: u64): Env {
    if x == "" then env else env.(context := env.context[x := [id]])
  }

  function EdgeBetween(rel: Rel<Lit>, id: u64, next: u64, env: Env): Edge {
    var (source, target) := if rel.direction == "<-" then (next, id) else (id, next);
    Edge(source, target, rel.kind, EvalProps(rel.properties, env.unwind))
  }

  function CreateElement(stod: Stod, d: Db, env: Env, path: Path<Lit>, i: nat): Outcome
    requires i < |path|
  {
    var a := EnsureNode(stod, d, env, path[i].node);
    if !a.after.ok || path[i].rel.None? || i + 1 >= |path| then a.after else
    var b := EnsureNode(stod, a.after.db, a.after.env, path[i + 1].node);
    if !b.after.ok then b.after else
    var c := CreateEdge(b.after.db, EdgeBetween(path[i].rel.value, a.id, b.id, b.after.env));
    Outcome(c.db, if c.ok then Bind(b.after.env, path[i].rel.value.variable, c.id) else b.after.env, c.ok)
  }

  /** The first n elements; nothing more happens after a failure. */
  function CreateElements(stod: Stod, d: Db, env: Env, path: Path<Lit>, n: nat): Outcome
    requires n <= |path|
  {
    if n == 0 then Outcome(d, env, true) else
    var o := CreateElements(stod, d, env, path, n - 1);
    if o.ok then CreateElement(stod, o.db, o.env, path, n - 1) else o
  }

  function CreatePaths(stod: Stod, d: Db, env: Env, paths: seq<Path<Lit>>): Outcome {
    if paths == [] then Outcome(d, env, true) else
    var n := |paths| - 1;
    var o := CreatePaths(stod, d, env, paths[..n]);
    if o.ok then CreateElements(stod, o.db, o.env, paths[n], |paths[n]|) else o
  }

  /** Consecutive CREATE clauses. */
  function CreateClauses(stod: Stod, d: Db, env: Env, clauses: seq<seq<Path<Lit>>>): Outcome {
    if clauses == [] then Outcome(d, env, true) else
    var n := |clauses| - 1;
    var o := CreateClauses(stod, d, env, clauses[..n]);
    if o.ok then CreatePaths(stod, o.db, o.env, clauses[n]) else o
  }

  // ---- UNWIND ----

  function MapBinding(entries: seq<Prop<Lit>>): Binding {
    if entries == [] then Binding(map[], map[]) else
    var n := |entries| - 1;
    var b := MapBinding(entries[..n]);
    if entries[n].value.Literal? then
      Binding(b.properties[entries[n].key := entries[n].value.lit.text],
              b.isString[entries[n].key := entries[n].value.lit.isString])
    else b
  }

  function BindingOf(element: Expr<Lit>): Binding {
    match element
    case MapLiteral(entries) => MapBinding(entries)
    case Literal(l) => Binding(map["_value" := l.text], map["_value" := l.isString])
    case _ => Binding(map[], map[])
  }

  const FRESH: Env := Env(map[], map[], map[])

  /** UNWIND as the first clause with only CREATEs after it: the clauses run once per element, and the
      symbol tables are cleared in between. */
  function UnwindCreates(stod: Stod, d: Db, env: Env, elements: seq<Expr<Lit>>, alias: string,
                         clauses: seq<seq<Path<Lit>>>): Outcome {
    if elements == [] then Outcome(d, env, true) else
    var n := |elements| - 1;
    var o := UnwindCreates(stod, d, env, elements[..n], alias, clauses);
    if !o.ok then o else
    var bound := o.env.(unwind := o.env.unwind[alias := BindingOf(elements[n])]);
    var after := CreateClauses(stod, o.db, bound, clauses);
    if after.ok then after.(env := after.env.(context := map[], labels := map[])) else after
  }

  // ---- substitution ----

  /** alias.key replaced by the element's literal, where it has one. */
  function SubstExpr(v: Expr<Lit>, alias: string, b: Binding): Expr<Lit> {
    match v
    case PropertyAccess(x, k) =>
      if x == alias && k in b.properties
      then Literal(Lit(b.properties[k], k in b.isString && b.isString[k])) else v
    case _ => v
  }

  function SubstProps(props: seq<Prop<Lit>>, alias: string, b: Binding): (r: seq<Prop<Lit>>)
    ensures |r| == |props|
  {
    seq(|props|, i requires 0 <= i < |props| => Prop(props[i].key, SubstExpr(props[i].value, alias, b)))
  }

  function SubstElement(e: Element<Lit>, alias: string, b: Binding): Element<Lit> {
    Element(e.node.(properties := SubstProps(e.node.properties, alias, b)),
            match e.rel
            case None => None
            case Some(r) => Some(r.(properties := SubstProps(r.properties, alias, b))))
  }

  function SubstPath(path: Path<Lit>, alias: string, b: Binding): (r: Path<Lit>)
    ensures |r| == |path|
  {
    seq(|path|, i requires 0 <= i < |path| => SubstElement(path[i], alias, b))
  }

  function SubstPaths(paths: seq<Path<Lit>>, alias: string, b: Binding): (r: seq<Path<Lit>>)
    ensures |r| == |paths|
  {
    seq(|paths|, i requires 0 <= i < |paths| => SubstPath(paths[i], alias, b))
  }

  function SubstClauses(clauses: seq<seq<Path<Lit>>>, alias: string, b: Binding): (r: seq<seq<Path<Lit>>>)
    ensures |r| == |clauses|
  {
    seq(|clauses|, i requires 0 <= i < |clauses| => SubstPaths(clauses[i], alias, b))
  }

  /** The substituted clauses once per element, each time by a new executor. */
  function SubstitutedCreates(stod: Stod, d: Db, elements: seq<Expr<Lit>>, alias: string,
                              clauses: seq<seq<Path<Lit>>>): Outcome {
    if elements == [] then Outcome(d, FRESH, true) else
    var n := |elements| - 1;
    var o := SubstitutedCreates(stod, d, elements[..n], alias, clauses);
    if !o.ok then o
    else CreateClauses(stod, o.db, FRESH, SubstClauses(clauses, alias, BindingOf(elements[n])))
  }

  lemma {:induction false} MapBindingIs(entries: seq<Prop<Lit>>, i: nat)
    requires i < |entries| && entries[i].value.Literal?
    requires forall j, k :: 0 <= j < k < |entries| ==> entries[j].key != entries[k].key
    ensures var (b, k, lit) := (MapBinding(entries), entries[i].key, entries[i].value.lit);
      && k in b.properties && b.properties[k] == lit.text && k in b.isString && b.isString[k] == lit.isString
  {
    var n := |entries| - 1;
    if i < n {
      MapBindingIs(entries[..n], i);
    }
  }

  /** What alias.key stands for in a row of UNWIND: the literal the row's map has under the key; a row that
      is itself a literal has it under _value. */
  lemma UnwoundValue(row: Expr<Lit>, alias: string, i: nat)
    requires row.MapLiteral? ==>
      && i < |row.entries| && row.entries[i].value.Literal?
      && forall j, k :: 0 <= j < k < |row.entries| ==> row.entries[j].key != row.entries[k].key
    ensures row.MapLiteral? ==>
      SubstExpr(PropertyAccess(alias, row.entries[i].key), alias, BindingOf(row)) == row.entries[i].value
    ensures row.Literal? ==> SubstExpr(PropertyAccess(alias, "_value"), alias, BindingOf(row)) == row
  {
    if row.MapLiteral? { MapBindingIs(row.entries, i); }
  }

  lemma {:induction false} EvalSubst(props: seq<Prop<Lit>>, alias: string, b: Binding)
    ensures EvalList(props, map[alias := b]) == EvalList(SubstProps(props, alias, b), map[])
  {
    hide PropLine;
    if props != [] {
      var n := |props| - 1;
      EvalSubst(props[..n], alias, b);
      assert SubstProps(props, alias, b)[..n] == SubstProps(props[..n], alias, b);
      LineSubst(props[n], alias, b);
    }
  }

  lemma LineSubst(p: Prop<Lit>, alias: string, b: Binding)
    ensures PropLine(p, map[alias := b]) == PropLine(Prop(p.key, SubstExpr(p.value, alias, b)), map[])
  {
    hide ValueText;
  }

  /** The same outcome up to the binding that was substituted away. */
  function WithoutUnwind(o: Outcome): Outcome {
    o.(env := o.env.(unwind := map[]))
  }

  ghost predicate Unwinding(env: Env, alias: string, b: Binding) {
    env.unwind == map[alias := b]
  }

  lemma EnsureSubst(stod: Stod, d: Db, env: Env, node: Node<Lit>, alias: string, b: Binding)
    requires Unwinding(env, alias, b)
    ensures var a := EnsureNode(stod, d, env, node);
            var s := EnsureNode(stod, d, env.(unwind := map[]), node.(properties := SubstProps(node.properties, alias, b)));
      a.id == s.id && WithoutUnwind(a.after) == s.after && Unwinding(a.after.env, alias, b)
  {
    hide CreateNode, EvalList, SubstProps;
    EvalSubst(node.properties, alias, b);
  }

  lemma ElementSubst(stod: Stod, d: Db, env: Env, path: Path<Lit>, i: nat, alias: string, b: Binding)
    requires i < |path| && Unwinding(env, alias, b)
    ensures var a := CreateElement(stod, d, env, path, i);
      && WithoutUnwind(a) == CreateElement(stod, d, env.(unwind := map[]), SubstPath(path, alias, b), i)
      && Unwinding(a.env, alias, b)
  {
    hide EnsureNode, CreateEdge, EvalList, SubstProps;
    EnsureSubst(stod, d, env, path[i].node, alias, b);
    var a := EnsureNode(stod, d, env, path[i].node);
    if a.after.ok && path[i].rel.Some? && i + 1 < |path| {
      EnsureSubst(stod, a.after.db, a.after.env, path[i + 1].node, alias, b);
      EvalSubst(path[i].rel.value.properties, alias, b);
    }
  }

  lemma {:induction false} ElementsSubst(stod: Stod, d: Db, env: Env, path: Path<Lit>, n: nat, alias: string, b: Binding)
    requires n <= |path| && Unwinding(env, alias, b)
    ensures var a := CreateElements(stod, d, env, path, n);
      && WithoutUnwind(a) == CreateElements(stod, d, env.(unwind := map[]), SubstPath(path, alias, b), n)
      && Unwinding(a.env, alias, b)
  {
    hide CreateElement, SubstPath;
    if n > 0 {
      ElementsSubst(stod, d, env, path, n - 1, alias, b);
      var o := CreateElements(stod, d, env, path, n - 1);
      ElementSubst(stod, o.db, o.env, path, n - 1, alias, b);
    }
  }

  lemma {:induction false} PathsSubst(stod: Stod, d: Db, env: Env, paths: seq<Path<Lit>>, alias: string, b: Binding)
    requires Unwinding(env, alias, b)
    ensures var a := CreatePaths(stod, d, env, paths);
      && WithoutUnwind(a) == CreatePaths(stod, d, env.(unwind := map[]), SubstPaths(paths, alias, b))
      && Unwinding(a.env, alias, b)
  {
    hide CreateElements, SubstPath;
    if paths != [] {
      var n := |paths| - 1;
      PathsSubst(stod, d, env, paths[..n], alias, b);
      assert SubstPaths(paths, alias, b)[..n] == SubstPaths(paths[..n], alias, b);
      var o := CreatePaths(stod, d, env, paths[..n]);
      ElementsSubst(stod, o.db, o.env, paths[n], |paths[n]|, alias, b);
    }
  }

  lemma {:induction false} ClausesSubst(stod: Stod, d: Db, env: Env, clauses: seq<seq<Path<Lit>>>, alias: string, b: Binding)
    requires Unwinding(env, alias, b)
    ensures var a := CreateClauses(stod, d, env, clauses);
      && WithoutUnwind(a) == CreateClauses(stod, d, env.(unwind := map[]), SubstClauses(clauses, alias, b))
      && Unwinding(a.env, alias, b)
  {
    hide CreatePaths, SubstPaths;
    if clauses != [] {
      var n := |clauses| - 1;
      ClausesSubst(stod, d, env, clauses[..n], alias, b);
      assert SubstClauses(clauses, alias, b)[..n] == SubstClauses(clauses[..n], alias, b);
      var o := CreateClauses(stod, d, env, clauses[..n]);
      PathsSubst(stod, o.db, o.env, clauses[n], alias, b);
    }
  }

  /** UNWIND is a loop of substituted CREATEs: the same nodes and edges, the same ids, and a failure at
      the same point, whatever the elements are. */
  lemma {:induction false} UnwindIsSubstitution(stod: Stod, d: Db, elements: seq<Expr<Lit>>, alias: string,
                                               clauses: seq<seq<Path<Lit>>>)
    ensures var u := UnwindCreates(stod, d, FRESH, elements, alias, clauses);
            var s := SubstitutedCreates(stod, d, elements, alias, clauses);
      && u.db == s.db && u.ok == s.ok
      && (u.ok ==> u.env.context == map[] && u.env.labels == map[] && u.env.unwind.Keys <= {alias})
    decreases |elements|
  {
    hide CreateClauses, SubstClauses, BindingOf;
    if elements != [] {
      var n := |elements| - 1;
      UnwindIsSubstitution(stod, d, elements[..n], alias, clauses);
      var u := UnwindCreates(stod, d, FRESH, elements[..n], alias, clauses);
      if u.ok {
        var b := BindingOf(elements[n]);
        var bound := u.env.(unwind := u.env.unwind[alias := b]);
        assert bound.unwind == map[alias := b];
        ClausesSubst(stod, u.db, bound, clauses, alias, b);
      }
    }
  }
}
