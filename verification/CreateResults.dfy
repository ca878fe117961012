/** What CREATE makes, said of the pattern: nodes with its labels and texts, and edges that MATCH walks in
    the direction the pattern says. */
module CreateResults {
  import opened Bytes
  import opened Ast
  import opened JsonLaws
  import opened Store
  import opened PropertyIndex
  import opened Runs
  import opened Matching
  import opened CreateClause
  import SetClause

  // ---- patterns ----

  /** Literal properties with distinct names. */
  predicate GoodProps(props: seq<Prop<Lit>>) {
    AllLiterals(props) && WellFormed(EntriesOf(props)) && DistinctKeys(EntriesOf(props))
  }

  predicate GoodNode(node: Node<Lit>) {
    node.variable != "" && NulFree(node.lbl) && GoodProps(node.properties)
  }

  predicate GoodRel(rel: Option<Rel<Lit>>) {
    rel.Some? && rel.value.variable != "" && 20 + |rel.value.kind| < TWO32 && GoodProps(rel.value.properties)
  }

  /** Every element is named. A node's name may come again, a relationship's may not. */
  predicate GoodPath(path: Path<Lit>) {
    && path != [] && (forall i :: 0 <= i < |path| ==> GoodNode(path[i].node))
    && (forall i :: 0 <= i < |path| - 1 ==> GoodRel(path[i].rel))
    && (forall i, j :: 0 <= i < j < |path| - 1 ==> RelVar(path, i) != RelVar(path, j))
    && (forall i, j :: 0 <= i < |path| - 1 && 0 <= j < |path| ==> RelVar(path, i) != NodeVar(path, j))
  }

  function NodeVar(path: Path<Lit>, i: nat): string
    requires i < |path|
  {
    path[i].node.variable
  }

  function RelVar(path: Path<Lit>, i: nat): string
    requires i < |path|
  {
    if path[i].rel.Some? then path[i].rel.value.variable else ""
  }

  /** The node the variable stands for. */
  function NodeOf(env: Env, x: string): u64 {
    if Bound(env, x) == [] then 0 else Bound(env, x)[0]
  }

  // ---- what is made ----

  /** Nothing that was there has changed. */
  ghost predicate Grows(w: World, w': World) {
    && (forall id :: id in w.labels ==>
          id in w'.labels && w'.labels[id] == w.labels[id] && NodeText(w'.db, id) == NodeText(w.db, id))
    && (forall e :: e in w.edges ==> e in w'.edges && w'.edges[e] == w.edges[e])
    && w'.deletedEdges == w.deletedEdges && w'.deletedNodes == w.deletedNodes
    && w.db.ids.next <= w'.db.ids.next
  }

  predicate IsNew(w: World, id: u64) {
    id !in w.labels && id !in w.edges
  }

  /** A variable that was bound stands for what it stood for; any other for a new node. */
  ghost predicate NodeMade(w: World, env: Env, w': World, env': Env, x: string) {
    && Bound(env', x) != []
    && (Bound(env, x) != [] ==> Bound(env', x) == Bound(env, x))
    && (Bound(env, x) == [] ==> Bound(env', x) == [NodeOf(env', x)] && IsNew(w, NodeOf(env', x)) && NodeOf(env', x) in w'.labels)
  }

  /** It has the label and the text of the pattern. */
  ghost predicate LooksLike(w': World, id: u64, node: Node<Lit>)
    requires AllLiterals(node.properties)
  {
    id in w'.labels && w'.labels[id] == node.lbl && NodeText(w'.db, id) == Print(EntriesOf(node.properties))
  }

  /** The relationship variable stands for one new edge, of the pattern's type and text, between the two
      nodes: the one on the left is its source unless the arrow points left. Walking it as MATCH does leads
      from the left node to the right one. */
  ghost predicate HopMade(w: World, w': World, env': Env, rel: Rel<Lit>, left: string, right: string)
    requires AllLiterals(rel.properties)
  {
    var a, b := NodeOf(env', left), NodeOf(env', right);
    && |Bound(env', rel.variable)| == 1
    && var e := Bound(env', rel.variable)[0];
    && IsNew(w, e) && e in w'.edges && e !in w'.deletedEdges
    && w'.edges[e].lbl == rel.kind && w'.edges[e].properties == Print(EntriesOf(rel.properties))
    && (if rel.direction == "<-" then w'.edges[e].source == b && w'.edges[e].target == a
        else w'.edges[e].source == a && w'.edges[e].target == b)
    && Across(w', a, e, HopSpec(rel.direction != "<-", rel.kind, "")) == Some(b)
  }

  predicate NamedBefore(path: Path<Lit>, i: nat)
    requires i < |path|
  {
    exists j :: 0 <= j < i && NodeVar(path, j) == NodeVar(path, i)
  }

  ghost predicate NodesMade(w: World, env: Env, w': World, env': Env, path: Path<Lit>, m: nat)
    requires m <= |path|
  {
    forall i :: 0 <= i < m ==> NodeMade(w, env, w', env', NodeVar(path, i))
  }

  ghost predicate TextsMade(env: Env, w': World, env': Env, path: Path<Lit>, m: nat)
    requires GoodPath(path) && m <= |path|
  {
    forall i :: 0 <= i < m && Bound(env, NodeVar(path, i)) == [] && !NamedBefore(path, i) ==>
      LooksLike(w', NodeOf(env', NodeVar(path, i)), path[i].node)
  }

  ghost predicate HopsMade(w: World, w': World, env': Env, path: Path<Lit>, h: nat)
    requires GoodPath(path) && h < |path|
  {
    forall i :: 0 <= i < h ==> HopMade(w, w', env', path[i].rel.value, NodeVar(path, i), NodeVar(path, i + 1))
  }

  /** All other names stand for what they stood for. */
  ghost predicate OthersKept(env: Env, env': Env, path: Path<Lit>, m: nat, h: nat)
    requires m <= |path| && h < |path|
  {
    && (forall x :: Elsewhere(path, m, h, x) ==> Bound(env', x) == Bound(env, x))
    && env'.labels == env.labels && env'.unwind == env.unwind
  }

  /** The first m nodes and h relationships of the path are there. */
  ghost predicate Made(stod: Stod, w: World, env: Env, w': World, env': Env, path: Path<Lit>, m: nat, h: nat)
    requires GoodPath(path) && m <= |path| && h < |path|
  {
    && Inv(stod, w') && Grows(w, w') && w'.db.ids.next <= w.db.ids.next + m + h
    && NodesMade(w, env, w', env', path, m) && TextsMade(env, w', env', path, m) && HopsMade(w, w', env', path, h)
    && OthersKept(env, env', path, m, h) && OnlyMade(w, env, w', env', path, m, h)
  }

  /** Not a name of the first m nodes or h relationships. */
  ghost predicate Elsewhere(path: Path<Lit>, m: nat, h: nat, x: string)
    requires m <= |path| && h < |path|
  {
    && (forall i :: 0 <= i < m ==> NodeVar(path, i) != x)
    && (forall i :: 0 <= i < h ==> RelVar(path, i) != x)
  }

  /** And nothing else is. */
  ghost predicate OnlyMade(w: World, env: Env, w': World, env': Env, path: Path<Lit>, m: nat, h: nat)
    requires m <= |path| && h < |path|
  {
    && (forall id :: id in w'.labels && id !in w.labels ==>
          exists i :: 0 <= i < m && Bound(env', NodeVar(path, i)) == [id])
    && (forall e :: e in w'.edges && e !in w.edges ==> exists i :: 0 <= i < h && Bound(env', RelVar(path, i)) == [e])
  }

  // ---- one node ----

  function EnsureWorld(stod: Stod, w: World, env: Env, node: Node<Lit>): World {
    if Bound(env, node.variable) != [] then w
    else Step(stod, w, CreateNodeOp(node.lbl, EvalProps(node.properties, env.unwind)))
  }

  lemma GoodPropsText(props: seq<Prop<Lit>>, unwind: map<string, Binding>)
    requires GoodProps(props)
    ensures EvalProps(props, unwind) == Print(EntriesOf(props)) && ValidText(EvalProps(props, unwind))
  {
    hide Print, WellFormed, DistinctKeys, EntriesOf, ValidText, EvalProps;
    EvalIsPrint(props, unwind);
    assert SetClause.PrintedText(Print(EntriesOf(props)));
    SetClause.PrintedIsValid(Print(EntriesOf(props)));
  }

  lemma EnsureMakes(stod: Stod, w: World, env: Env, node: Node<Lit>)
    requires Inv(stod, w) && GoodNode(node) && IdsLeft(w.db.ids)
    ensures var w', o := EnsureWorld(stod, w, env, node), EnsureNode(stod, w.db, env, node);
      && Inv(stod, w') && o.after.ok && o.after.db == w'.db && Grows(w, w') && w'.db.ids.next <= w.db.ids.next + 1
      && (Bound(env, node.variable) != [] ==> w' == w && o.after.env == env && o.id == NodeOf(env, node.variable))
      && (Bound(env, node.variable) == [] ==>
            && o.after.env == Bind(env, node.variable, o.id) && IsNew(w, o.id)
            && w'.labels == w.labels[o.id := node.lbl] && w'.edges == w.edges && LooksLike(w', o.id, node))
  {
    hide Inv, Print, EntriesOf, ValidText, NulFree, EvalProps, WellFormed, DistinctKeys;
    if Bound(env, node.variable) == [] {
      GoodPropsText(node.properties, env.unwind);
      var op := CreateNodeOp(node.lbl, EvalProps(node.properties, env.unwind));
      StepKeepsInv(stod, w, op);
      NodeStep(stod, w, node.lbl, EvalProps(node.properties, env.unwind));
    }
  }

  /** A new node under the next id. */
  lemma NodeStep(stod: Stod, w: World, lbl: string, text: string)
    requires Inv(stod, w) && IdsLeft(w.db.ids)
    ensures var (c, w', id) := (CreateNode(stod, w.db, lbl, text), Step(stod, w, CreateNodeOp(lbl, text)), w.db.ids.next);
      && c.ok && c.id == id && IsNew(w, id) && w' == w.(db := c.db, labels := w.labels[id := lbl])
      && NodeText(w'.db, id) == text && (forall x: u64 :: x != id ==> NodeText(w'.db, x) == NodeText(w.db, x))
      && w'.db.ids.next == id + 1
  {
    hide Inv, ToKey, FromKey, IndexNode, TextOf, PutNew;
    NextIsFree(stod, w);
    TextWritten(w.db.nodes, w.db.ids.next, text);
    OthersKeepText(w.db.nodes, w.db.ids.next, text);
  }

  lemma NextIsUnused(labels: map<u64, string>, dead: map<u64, string>, nodes: Table, next: u64)
    requires NodesInv(labels, dead, nodes, next)
    ensures next !in labels && ToKey(next) !in nodes
  {
    hide ValidText, NulFree, TextOf;
    assert FromKey(ToKey(next)) == next;
  }

  // ---- one edge ----

  lemma EdgeStep(stod: Stod, w: World, e: Edge)
    requires Inv(stod, w) && IdsLeft(w.db.ids) && 20 + |e.lbl| < TWO32
    ensures var (c, w', id) := (CreateEdge(w.db, e), Step(stod, w, CreateEdgeOp(e)), w.db.ids.next);
      && c.ok && c.id == id && IsNew(w, id) && id !in w.deletedEdges
      && w' == w.(db := c.db, edges := w.edges[id := e]) && Inv(stod, w')
      && w'.db.nodes == w.db.nodes && w'.db.ids.next == id + 1
  {
    hide Inv, ToKey, FromKey, EncodeEdge, PutNew;
    StepKeepsInv(stod, w, CreateEdgeOp(e));
    NextIsFree(stod, w);
  }

  lemma NextIsFree(stod: Stod, w: World)
    requires Inv(stod, w) && IdsLeft(w.db.ids)
    ensures IsNew(w, w.db.ids.next) && w.db.ids.next !in w.deletedEdges
    ensures ToKey(w.db.ids.next) !in w.db.nodes && ToKey(w.db.ids.next) !in w.db.edges
    ensures Allocate(w.db.ids).next == w.db.ids.next + 1
  {
    hide NodesInv, RecordsInv, IndexInv, IndexedBy, ToKey, FromKey;
    NextIsUnused(w.labels, w.deletedNodes, w.db.nodes, w.db.ids.next);
    NextEdgeUnused(w.edges, w.deletedEdges, w.db.edges, w.db.ids.next);
    AllocateKeepsIds(w.db.ids);
  }

  lemma NextEdgeUnused(edges: map<u64, Edge>, deleted: set<u64>, records: Table, next: u64)
    requires RecordsInv(edges, deleted, records, next)
    ensures next !in edges && next !in deleted && ToKey(next) !in records
  {
    hide EncodeEdge;
    assert FromKey(ToKey(next)) == next;
  }

  // ---- one element ----

  lemma GrowsFurther(w0: World, w: World, w': World)
    requires Grows(w0, w) && Grows(w, w')
    ensures Grows(w0, w')
  {
    hide NodeText;
  }

  /** What has been made stays made when the world grows and the names keep what they stand for. */
  lemma StaysMade(w0: World, env0: Env, w: World, env: Env, w': World, env': Env, x: string)
    requires NodeMade(w0, env0, w, env, x) && Grows(w, w') && Bound(env', x) == Bound(env, x)
    ensures NodeMade(w0, env0, w', env', x)
  {
    hide NodeText;
  }

  lemma StaysAlike(w: World, w': World, id: u64, node: Node<Lit>)
    requires AllLiterals(node.properties) && LooksLike(w, id, node) && Grows(w, w')
    ensures LooksLike(w', id, node)
  {
    hide NodeText, Print, EntriesOf;
  }

  lemma HopStays(w0: World, w: World, env: Env, w': World, env': Env, rel: Rel<Lit>, left: string, right: string)
    requires AllLiterals(rel.properties) && HopMade(w0, w, env, rel, left, right) && Grows(w, w')
    requires Bound(env', rel.variable) == Bound(env, rel.variable)
    requires NodeOf(env', left) == NodeOf(env, left) && NodeOf(env', right) == NodeOf(env, right)
    ensures HopMade(w0, w', env', rel, left, right)
  {
    hide NodeText, Print, EntriesOf;
  }

  /** Two states of a path whose bindings agree on the names that are done. */
  lemma MadeLater(w0: World, env0: Env, w: World, env: Env, w': World, env': Env, path: Path<Lit>, m: nat, h: nat)
    requires GoodPath(path) && m <= |path| && h < |path| && (h == 0 || h < m)
    requires NodesMade(w0, env0, w, env, path, m) && TextsMade(env0, w, env, path, m) && HopsMade(w0, w, env, path, h)
    requires Grows(w, w')
    requires forall i :: 0 <= i < m ==> Bound(env', NodeVar(path, i)) == Bound(env, NodeVar(path, i))
    requires forall i :: 0 <= i < h ==> Bound(env', RelVar(path, i)) == Bound(env, RelVar(path, i))
    ensures NodesMade(w0, env0, w', env', path, m) && TextsMade(env0, w', env', path, m) && HopsMade(w0, w', env', path, h)
  {
    hide NodeText, Print, EntriesOf, NodeMade, LooksLike, HopMade, Grows, GoodProps, Bound, NamedBefore;
    forall i | 0 <= i < m ensures NodeOf(env', NodeVar(path, i)) == NodeOf(env, NodeVar(path, i)) {
      SameNode(env, env', NodeVar(path, i));
    }
    forall i | 0 <= i < m ensures NodeMade(w0, env0, w', env', NodeVar(path, i)) {
      StaysMade(w0, env0, w, env, w', env', NodeVar(path, i));
    }
    forall i | 0 <= i < m && Bound(env0, NodeVar(path, i)) == [] && !NamedBefore(path, i)
      ensures AllLiterals(path[i].node.properties) && LooksLike(w', NodeOf(env', NodeVar(path, i)), path[i].node)
    {
      LiteralNode(path, i);
      StaysAlike(w, w', NodeOf(env, NodeVar(path, i)), path[i].node);
    }
    forall i | 0 <= i < h
      ensures path[i].rel.Some? && AllLiterals(path[i].rel.value.properties)
      ensures HopMade(w0, w', env', path[i].rel.value, NodeVar(path, i), NodeVar(path, i + 1))
    {
      LiteralRel(path, i);
      assert RelVar(path, i) == path[i].rel.value.variable;
      HopStays(w0, w, env, w', env', path[i].rel.value, NodeVar(path, i), NodeVar(path, i + 1));
    }
  }

  lemma SameNode(env: Env, env': Env, x: string)
    requires Bound(env', x) == Bound(env, x)
    ensures NodeOf(env', x) == NodeOf(env, x)
  {
    hide Bound;
  }

  lemma LiteralNode(path: Path<Lit>, i: nat)
    requires GoodPath(path) && i < |path|
    ensures AllLiterals(path[i].node.properties) && GoodNode(path[i].node)
  {
    hide EntriesOf;
  }

  lemma LiteralRel(path: Path<Lit>, i: nat)
    requires GoodPath(path) && i + 1 < |path|
    ensures path[i].rel.Some? && AllLiterals(path[i].rel.value.properties) && GoodRel(path[i].rel)
  {
    hide EntriesOf;
  }

  lemma StillGood(stod: Stod, w0: World, env0: Env, w: World, env: Env, path: Path<Lit>, m: nat, h: nat)
    requires GoodPath(path) && m <= |path| && h < |path| && Made(stod, w0, env0, w, env, path, m, h)
    ensures Inv(stod, w) && Grows(w0, w) && w.db.ids.next <= w0.db.ids.next + m + h
  {
    hide Inv, Grows, NodesMade, TextsMade, HopsMade, OnlyMade, OthersKept;
  }

  /** A node that is there already is found. */
  lemma NodeAgain(stod: Stod, w0: World, env0: Env, w: World, env: Env, path: Path<Lit>, m: nat, h: nat, i: nat)
    requires GoodPath(path) && i < m <= |path| && h < |path| && Made(stod, w0, env0, w, env, path, m, h)
    ensures EnsureNode(stod, w.db, env, path[i].node) == NodeOutcome(Outcome(w.db, env, true), NodeOf(env, NodeVar(path, i)))
  {
    hide Inv, EntriesOf, Print, CreateNode, TextsMade, HopsMade, OnlyMade, OthersKept, Grows;
    assert NodeMade(w0, env0, w, env, NodeVar(path, i));
    assert GoodNode(path[i].node);
  }

  /** The next node of the path. */
  lemma NextNode(stod: Stod, w0: World, env0: Env, w: World, env: Env, path: Path<Lit>, m: nat, h: nat)
    requires GoodPath(path) && m < |path| && h < |path| && (h == 0 || h < m) && Made(stod, w0, env0, w, env, path, m, h)
    requires IdsLeft(w.db.ids)
    ensures var w', o := EnsureWorld(stod, w, env, path[m].node), EnsureNode(stod, w.db, env, path[m].node);
      && o.after.ok && o.after.db == w'.db && o.id == NodeOf(o.after.env, NodeVar(path, m))
      && Made(stod, w0, env0, w', o.after.env, path, m + 1, h)
  {
    hide Inv, NodeText, Print, EntriesOf, NodeMade, LooksLike, HopMade, GoodProps, GoodPath, GoodNode, Elsewhere, OnlyMade, Grows,
      EnsureWorld, EnsureNode, NamedBefore, Made;
    LiteralNode(path, m);
    StillGood(stod, w0, env0, w, env, path, m, h);
    EnsureMakes(stod, w, env, path[m].node);
    var w', o := EnsureWorld(stod, w, env, path[m].node), EnsureNode(stod, w.db, env, path[m].node);
    if Bound(env, NodeVar(path, m)) != [] {
      NodeReused(stod, w0, env0, w, env, path, m, h);
    } else {
      NodeAdded(stod, w0, env0, w, env, w', o.after.env, o.id, path, m, h);
    }
  }

  lemma ElsewhereLess(path: Path<Lit>, m: nat, h: nat)
    requires h < |path|
    ensures m < |path| ==> forall y :: Elsewhere(path, m + 1, h, y) ==> Elsewhere(path, m, h, y) && NodeVar(path, m) != y
    ensures m <= |path| && h + 1 < |path| ==> forall y :: Elsewhere(path, m, h + 1, y) ==> Elsewhere(path, m, h, y) && RelVar(path, h) != y
  {
    forall y | m < |path| && Elsewhere(path, m + 1, h, y) ensures Elsewhere(path, m, h, y) && NodeVar(path, m) != y {
      assert 0 <= m < m + 1;
    }
    forall y | m <= |path| && h + 1 < |path| && Elsewhere(path, m, h + 1, y)
      ensures Elsewhere(path, m, h, y) && RelVar(path, h) != y
    {
      assert 0 <= h < h + 1;
    }
  }

  lemma NodeReused(stod: Stod, w0: World, env0: Env, w: World, env: Env, path: Path<Lit>, m: nat, h: nat)
    requires GoodPath(path) && m < |path| && h < |path| && (h == 0 || h < m) && Made(stod, w0, env0, w, env, path, m, h)
    requires Bound(env, NodeVar(path, m)) != []
    ensures Made(stod, w0, env0, w, env, path, m + 1, h)
  {
    hide Inv, NodeText, Print, EntriesOf, LooksLike, HopMade, GoodProps, Grows, NodeMade, Elsewhere, HopsMade, Bound;
    var x := NodeVar(path, m);
    ElsewhereLess(path, m, h);
    if i :| 0 <= i < m && NodeVar(path, i) == x {
      assert NodeMade(w0, env0, w, env, NodeVar(path, i));
      assert NamedBefore(path, m);
    } else {
      NotAmong(path, m, h);
      assert NodeMade(w0, env0, w, env, x) by { OldStays(w0, env0, w, env, x); }
    }
  }

  lemma OldStays(w0: World, env0: Env, w: World, env: Env, x: string)
    requires Bound(env, x) == Bound(env0, x) != []
    ensures NodeMade(w0, env0, w, env, x)
  {
  }

  /** A node's name that has not come before is no name of what is done. */
  lemma NotAmong(path: Path<Lit>, m: nat, h: nat)
    requires GoodPath(path) && m < |path| && h < |path| && forall i :: 0 <= i < m ==> NodeVar(path, i) != NodeVar(path, m)
    ensures Elsewhere(path, m, h, NodeVar(path, m))
  {
    hide EntriesOf, GoodProps;
  }

  lemma NodeAdded(stod: Stod, w0: World, env0: Env, w: World, env: Env, w': World, env': Env, id: u64, path: Path<Lit>, m: nat, h: nat)
    requires GoodPath(path) && m < |path| && h < |path| && (h == 0 || h < m) && Made(stod, w0, env0, w, env, path, m, h)
    requires Inv(stod, w') && Grows(w, w') && w'.db.ids.next <= w.db.ids.next + 1
    requires Bound(env, NodeVar(path, m)) == [] && env' == Bind(env, NodeVar(path, m), id) && IsNew(w, id)
    requires AllLiterals(path[m].node.properties) && LooksLike(w', id, path[m].node)
    requires w'.labels == w.labels[id := path[m].node.lbl] && w'.edges == w.edges
    ensures id == NodeOf(env', NodeVar(path, m)) && Made(stod, w0, env0, w', env', path, m + 1, h)
  {
    hide Inv, NodeText, Print, EntriesOf, LooksLike, HopMade, GoodProps, Grows, NodeMade, Elsewhere, GoodPath, IsNew, OnlyMade,
      NamedBefore, Bound;
    var x := NodeVar(path, m);
    OneBound(env, path, m, id);
    OtherNames(w0, env0, w, env, path, m, h);
    MadeLater(w0, env0, w, env, w', env', path, m, h);
    GrowsFurther(w0, w, w');
    NotAmong(path, m, h);
    assert Bound(env0, x) == [];
    NewNodeMade(w0, env0, w, w', env', x, id);
    ElsewhereLess(path, m, h);
    OneMoreNode(w0, env0, w, env, w', env', id, path, m, h);
  }

  lemma OneBound(env: Env, path: Path<Lit>, m: nat, id: u64)
    requires GoodPath(path) && m < |path|
    ensures var env' := Bind(env, NodeVar(path, m), id);
      && Bound(env', NodeVar(path, m)) == [id] && NodeOf(env', NodeVar(path, m)) == id
      && (forall y :: y != NodeVar(path, m) ==> Bound(env', y) == Bound(env, y))
      && env'.labels == env.labels && env'.unwind == env.unwind
  {
    hide EntriesOf, GoodProps;
    assert GoodNode(path[m].node);
  }

  /** An unbound name has not come before. */
  lemma OtherNames(w0: World, env0: Env, w: World, env: Env, path: Path<Lit>, m: nat, h: nat)
    requires GoodPath(path) && m < |path| && h < |path| && NodesMade(w0, env0, w, env, path, m)
    requires Bound(env, NodeVar(path, m)) == []
    ensures forall i :: 0 <= i < m ==> NodeVar(path, i) != NodeVar(path, m)
    ensures forall i :: 0 <= i < h ==> RelVar(path, i) != NodeVar(path, m)
  {
    hide EntriesOf, GoodProps, Bound;
    forall i | 0 <= i < m ensures NodeVar(path, i) != NodeVar(path, m) { assert NodeMade(w0, env0, w, env, NodeVar(path, i)); }
  }

  lemma NewNodeMade(w0: World, env0: Env, w: World, w': World, env': Env, x: string, id: u64)
    requires Grows(w0, w) && IsNew(w, id) && Bound(env0, x) == [] && Bound(env', x) == [id] && id in w'.labels
    ensures NodeMade(w0, env0, w', env', x)
  {
    hide NodeText;
  }

  lemma OneMoreNode(w0: World, env0: Env, w: World, env: Env, w': World, env': Env, id: u64, path: Path<Lit>, m: nat, h: nat)
    requires m < |path| && h < |path| && OnlyMade(w0, env0, w, env, path, m, h)
    requires w'.labels.Keys == w.labels.Keys + {id} && w'.edges == w.edges && Bound(env', NodeVar(path, m)) == [id]
    requires forall i :: 0 <= i < m ==> Bound(env', NodeVar(path, i)) == Bound(env, NodeVar(path, i))
    requires forall i :: 0 <= i < h ==> Bound(env', RelVar(path, i)) == Bound(env, RelVar(path, i))
    ensures OnlyMade(w0, env0, w', env', path, m + 1, h)
  {
    hide Bound;
  }

  /** The next relationship, between two nodes that are there. */
  lemma NextHop(stod: Stod, w0: World, env0: Env, w: World, env: Env, path: Path<Lit>, m: nat, h: nat)
    requires GoodPath(path) && h + 1 < m <= |path| && Made(stod, w0, env0, w, env, path, m, h) && IdsLeft(w.db.ids)
    ensures path[h].rel.Some?
    ensures var rel := path[h].rel.value;
            var e := EdgeBetween(rel, NodeOf(env, NodeVar(path, h)), NodeOf(env, NodeVar(path, h + 1)), env);
            var c := CreateEdge(w.db, e);
      && c.ok && c.db == Step(stod, w, CreateEdgeOp(e)).db
      && Made(stod, w0, env0, Step(stod, w, CreateEdgeOp(e)), Bind(env, rel.variable, c.id), path, m, h + 1)
  {
    hide Inv, NodeText, Print, EntriesOf, GoodProps, GoodPath, Grows, Made, CreateEdge, Step, EvalProps;
    LiteralRel(path, h);
    var rel := path[h].rel.value;
    var a, b := NodeOf(env, NodeVar(path, h)), NodeOf(env, NodeVar(path, h + 1));
    var e := EdgeBetween(rel, a, b, env);
    StillGood(stod, w0, env0, w, env, path, m, h);
    EdgeStep(stod, w, e);
    GoodPropsText(rel.properties, env.unwind);
    EdgeAdded(stod, w0, env0, w, env, Step(stod, w, CreateEdgeOp(e)), w.db.ids.next, e, path, m, h);
  }

  lemma EdgeAdded(stod: Stod, w0: World, env0: Env, w: World, env: Env, w': World, id: u64, e: Edge, path: Path<Lit>, m: nat, h: nat)
    requires GoodPath(path) && h + 1 < m <= |path| && Made(stod, w0, env0, w, env, path, m, h)
    requires Inv(stod, w') && IsNew(w, id) && id !in w.deletedEdges
    requires w' == w.(db := w'.db, edges := w.edges[id := e]) && w'.db.nodes == w.db.nodes && w'.db.ids.next == w.db.ids.next + 1
    requires path[h].rel.Some? && AllLiterals(path[h].rel.value.properties)
    requires Joins(e, path[h].rel.value, NodeOf(env, NodeVar(path, h)), NodeOf(env, NodeVar(path, h + 1)))
    ensures Made(stod, w0, env0, w', Bind(env, path[h].rel.value.variable, id), path, m, h + 1)
  {
    hide Inv, Print, EntriesOf, GoodProps, TextOf, ToKey, HopMade, NodeMade, LooksLike, Elsewhere, GoodPath, OnlyMade, NamedBefore,
      Bound, NodesMade, TextsMade, Joins, Grows, HopsMade, OthersKept, Bind;
    var rel := path[h].rel.value;
    var env' := Bind(env, rel.variable, id);
    RelBound(env, path, h, id);
    EdgeGrows(w, w', id, e);
    GrowsFurther(w0, w, w');
    MadeLater(w0, env0, w, env, w', env', path, m, h);
    StillNew(w0, w, id);
    SameNode(env, env', NodeVar(path, h));
    SameNode(env, env', NodeVar(path, h + 1));
    NewHopMade(w0, w', env', rel, NodeVar(path, h), NodeVar(path, h + 1), id);
    HopsMore(w0, w', env', path, h);
    OthersStill(env0, env, env', path, m, h);
    OneMoreEdge(w0, env0, w, env, w', env', id, path, m, h);
  }

  lemma HopsMore(w0: World, w': World, env': Env, path: Path<Lit>, h: nat)
    requires GoodPath(path) && h + 1 < |path| && HopsMade(w0, w', env', path, h)
    requires path[h].rel.Some? && AllLiterals(path[h].rel.value.properties)
    requires HopMade(w0, w', env', path[h].rel.value, NodeVar(path, h), NodeVar(path, h + 1))
    ensures HopsMade(w0, w', env', path, h + 1)
  {
    hide HopMade, GoodProps, EntriesOf;
  }

  lemma OthersStill(env0: Env, env: Env, env': Env, path: Path<Lit>, m: nat, h: nat)
    requires m <= |path| && h + 1 < |path| && OthersKept(env0, env, path, m, h)
    requires forall y :: y != RelVar(path, h) ==> Bound(env', y) == Bound(env, y)
    requires env'.labels == env.labels && env'.unwind == env.unwind
    ensures OthersKept(env0, env', path, m, h + 1)
  {
    hide Elsewhere, Bound;
    ElsewhereLess(path, m, h);
  }

  lemma EdgeGrows(w: World, w': World, id: u64, e: Edge)
    requires w' == w.(db := w'.db, edges := w.edges[id := e]) && IsNew(w, id)
    requires w'.db.nodes == w.db.nodes && w'.db.ids.next == w.db.ids.next + 1
    ensures Grows(w, w')
  {
    hide TextOf;
  }

  predicate Joins(e: Edge, rel: Rel<Lit>, a: u64, b: u64)
    requires AllLiterals(rel.properties)
  {
    && e.lbl == rel.kind && e.properties == Print(EntriesOf(rel.properties))
    && if rel.direction == "<-" then e.source == b && e.target == a else e.source == a && e.target == b
  }

  lemma RelBound(env: Env, path: Path<Lit>, h: nat, id: u64)
    requires GoodPath(path) && h + 1 < |path|
    ensures var env' := Bind(env, path[h].rel.value.variable, id);
      && RelVar(path, h) == path[h].rel.value.variable
      && Bound(env', RelVar(path, h)) == [id]
      && (forall y :: y != RelVar(path, h) ==> Bound(env', y) == Bound(env, y))
      && env'.labels == env.labels && env'.unwind == env.unwind
    ensures forall i :: 0 <= i < |path| ==> NodeVar(path, i) != RelVar(path, h)
    ensures forall i :: 0 <= i < h ==> RelVar(path, i) != RelVar(path, h)
  {
    hide EntriesOf, GoodProps;
    assert GoodRel(path[h].rel);
  }

  lemma NewHopMade(w0: World, w': World, env': Env, rel: Rel<Lit>, left: string, right: string, id: u64)
    requires AllLiterals(rel.properties) && Bound(env', rel.variable) == [id] && IsNew(w0, id)
    requires id in w'.edges && id !in w'.deletedEdges && Joins(w'.edges[id], rel, NodeOf(env', left), NodeOf(env', right))
    ensures HopMade(w0, w', env', rel, left, right)
  {
    hide Print, EntriesOf;
  }

  lemma OneMoreEdge(w0: World, env0: Env, w: World, env: Env, w': World, env': Env, id: u64, path: Path<Lit>, m: nat, h: nat)
    requires m <= |path| && h + 1 < |path| && OnlyMade(w0, env0, w, env, path, m, h)
    requires w'.edges.Keys == w.edges.Keys + {id} && w'.labels == w.labels && Bound(env', RelVar(path, h)) == [id]
    requires forall i :: 0 <= i < m ==> Bound(env', NodeVar(path, i)) == Bound(env, NodeVar(path, i))
    requires forall i :: 0 <= i < h ==> Bound(env', RelVar(path, i)) == Bound(env, RelVar(path, i))
    ensures OnlyMade(w0, env0, w', env', path, m, h + 1)
  {
    hide Bound;
  }

  lemma StillNew(w0: World, w: World, id: u64)
    requires Grows(w0, w) && IsNew(w, id)
    ensures IsNew(w0, id)
  {
    hide NodeText;
  }

  // ---- a whole path ----

  /** Room for so many more ids below the 63-bit bound of the sequence. */
  predicate Room(w: World, n: nat) {
    w.db.ids.next + n + SEQUENCE_BATCH_SIZE <= TWO63
  }

  /** How far the first n elements get: one node ahead, unless the path ends. */
  function NodesDone(path: Path<Lit>, n: nat): (m: nat)
    requires n <= |path|
    ensures m <= |path|
  {
    if n == 0 then 0 else if n < |path| then n + 1 else n
  }

  function HopsDone(path: Path<Lit>, n: nat): (h: nat)
    requires path != [] && n <= |path|
    ensures h < |path|
  {
    if n < |path| then n else n - 1
  }

  lemma NothingMade(stod: Stod, w: World, env: Env, path: Path<Lit>)
    requires Inv(stod, w) && GoodPath(path)
    ensures Made(stod, w, env, w, env, path, 0, 0)
  {
    hide Inv, GoodProps, EntriesOf, NodeText;
  }

  /** One element: its node, and then the next node and the relationship between them. */
  lemma ElementMakes(stod: Stod, w0: World, env0: Env, w: World, env: Env, path: Path<Lit>, n: nat) returns (w': World)
    requires GoodPath(path) && n < |path| && Room(w0, 2 * |path|)
    requires Made(stod, w0, env0, w, env, path, NodesDone(path, n), HopsDone(path, n))
    ensures var o := CreateElement(stod, w.db, env, path, n);
      && o.ok && o.db == w'.db && Made(stod, w0, env0, w', o.env, path, NodesDone(path, n + 1), HopsDone(path, n + 1))
  {
    hide Inv, GoodPath, GoodProps, EntriesOf, Print, Made, EnsureNode, EnsureWorld, CreateEdge, EdgeBetween, Step, EvalProps;
    StillGood(stod, w0, env0, w, env, path, NodesDone(path, n), HopsDone(path, n));
    var w1, a := w, EnsureNode(stod, w.db, env, path[n].node);
    if n == 0 {
      NextNode(stod, w0, env0, w, env, path, 0, 0);
      w1 := EnsureWorld(stod, w, env, path[0].node);
    } else {
      NodeAgain(stod, w0, env0, w, env, path, NodesDone(path, n), HopsDone(path, n), n);
    }
    assert Made(stod, w0, env0, w1, a.after.env, path, n + 1, n);
    assert a.after.ok && a.after.db == w1.db && a.id == NodeOf(a.after.env, NodeVar(path, n));
    if n + 1 == |path| {
      w' := w1;
    } else {
      w' := HopMakes(stod, w0, env0, w1, a.after.env, path, n);
      LiteralRel(path, n);
    }
  }

  lemma HopMakes(stod: Stod, w0: World, env0: Env, w: World, env: Env, path: Path<Lit>, n: nat) returns (w': World)
    requires GoodPath(path) && n + 1 < |path| && Room(w0, 2 * |path|) && Made(stod, w0, env0, w, env, path, n + 1, n)
    ensures path[n].rel.Some?
    ensures var b := EnsureNode(stod, w.db, env, path[n + 1].node);
            var c := CreateEdge(b.after.db, EdgeBetween(path[n].rel.value, NodeOf(env, NodeVar(path, n)), b.id, b.after.env));
      && b.after.ok && c.ok && c.db == w'.db
      && Made(stod, w0, env0, w', Bind(b.after.env, path[n].rel.value.variable, c.id), path, n + 2, n + 1)
  {
    hide Inv, GoodPath, GoodProps, EntriesOf, Print, Made, EnsureNode, EnsureWorld, CreateEdge, EdgeBetween, Step, EvalProps;
    StillGood(stod, w0, env0, w, env, path, n + 1, n);
    NextNode(stod, w0, env0, w, env, path, n + 1, n);
    var b, w1 := EnsureNode(stod, w.db, env, path[n + 1].node), EnsureWorld(stod, w, env, path[n + 1].node);
    StillGood(stod, w0, env0, w1, b.after.env, path, n + 2, n);
    NextHop(stod, w0, env0, w1, b.after.env, path, n + 2, n);
    SameLeft(stod, w0, env0, w, env, path, n);
    var e := EdgeBetween(path[n].rel.value, NodeOf(b.after.env, NodeVar(path, n)), b.id, b.after.env);
    w' := Step(stod, w1, CreateEdgeOp(e));
  }

  /** Finding or making the right node does not change what the left name stands for. */
  lemma SameLeft(stod: Stod, w0: World, env0: Env, w: World, env: Env, path: Path<Lit>, n: nat)
    requires GoodPath(path) && n + 1 < |path| && Made(stod, w0, env0, w, env, path, n + 1, n)
    ensures NodeOf(EnsureNode(stod, w.db, env, path[n + 1].node).after.env, NodeVar(path, n)) == NodeOf(env, NodeVar(path, n))
  {
    hide Inv, EntriesOf, Print, CreateNode, TextsMade, HopsMade, OnlyMade, OthersKept, Grows, GoodProps, EvalProps;
    assert NodeMade(w0, env0, w, env, NodeVar(path, n));
  }

  lemma {:induction false} ElementsMake(stod: Stod, w: World, env: Env, path: Path<Lit>, n: nat) returns (w': World)
    requires Inv(stod, w) && GoodPath(path) && n <= |path| && Room(w, 2 * |path|)
    ensures var o := CreateElements(stod, w.db, env, path, n);
      && o.ok && o.db == w'.db && Made(stod, w, env, w', o.env, path, NodesDone(path, n), HopsDone(path, n))
  {
    hide Inv, GoodPath, Made, CreateElement;
    if n == 0 {
      NothingMade(stod, w, env, path);
      w' := w;
    } else {
      var w1 := ElementsMake(stod, w, env, path, n - 1);
      w' := ElementMakes(stod, w, env, w1, CreateElements(stod, w.db, env, path, n - 1).env, path, n - 1);
    }
  }

  /** CREATE of one path of named elements with literal properties. It succeeds. A name that was bound
      stands for what it stood for; any other node is new, with the label and text of the pattern where the
      name comes first. Every relationship is one new edge, which MATCH walks from the left node to the
      right one in the direction of the pattern. Nothing else is made and nothing older changes. */
  lemma CreateIsMatched(stod: Stod, w: World, env: Env, path: Path<Lit>) returns (w': World)
    requires Inv(stod, w) && GoodPath(path) && Room(w, 2 * |path|)
    ensures var o := CreatePaths(stod, w.db, env, [path]);
      && o.ok && o.db == w'.db && Inv(stod, w') && Grows(w, w')
      && NodesMade(w, env, w', o.env, path, |path|) && TextsMade(env, w', o.env, path, |path|)
      && HopsMade(w, w', o.env, path, |path| - 1)
      && OnlyMade(w, env, w', o.env, path, |path|, |path| - 1)
      && OthersKept(env, o.env, path, |path|, |path| - 1)
  {
    hide Inv, GoodPath, CreateElements, NodesMade, TextsMade, HopsMade, OnlyMade, OthersKept;
    w' := ElementsMake(stod, w, env, path, |path|);
    assert [path][..0] == [] && CreatePaths(stod, w.db, env, []) == Outcome(w.db, env, true);
  }

  // ---- what was created is found by walking ----

  /** All names of the path are new and different. */
  ghost predicate NewNames(env: Env, path: Path<Lit>) {
    && (forall i :: 0 <= i < |path| ==> Bound(env, NodeVar(path, i)) == [])
    && (forall i, j :: 0 <= i < j < |path| ==> NodeVar(path, i) != NodeVar(path, j))
  }

  /** The edges the first n relationship names stand for. */
  function EdgesOf(env: Env, path: Path<Lit>, n: nat): (es: seq<u64>)
    requires n <= |path|
    ensures |es| == n
  {
    seq(n, i requires 0 <= i < n => NodeOf(env, RelVar(path, i)))
  }

  lemma FullHop(w: World, env: Env, w': World, env': Env, path: Path<Lit>, i: nat)
    requires GoodPath(path) && i + 1 < |path| && NewNames(env, path)
    requires TextsMade(env, w', env', path, |path|) && HopsMade(w, w', env', path, |path| - 1)
    ensures path[i].rel.Some?
    ensures Across(w', NodeOf(env', NodeVar(path, i)), NodeOf(env', RelVar(path, i)), HopOf(path[i].rel.value, path[i + 1].node))
         == Some(NodeOf(env', NodeVar(path, i + 1)))
  {
    hide GoodProps, EntriesOf, Print, Bound, NodeText;
    LiteralRel(path, i);
    LiteralNode(path, i + 1);
    assert HopMade(w, w', env', path[i].rel.value, NodeVar(path, i), NodeVar(path, i + 1));
    assert LooksLike(w', NodeOf(env', NodeVar(path, i + 1)), path[i + 1].node);
    assert RelVar(path, i) == path[i].rel.value.variable;
  }

  lemma {:induction false} CreatedArrival(w: World, env: Env, w': World, env': Env, path: Path<Lit>, n: nat)
    requires GoodPath(path) && n < |path| && NewNames(env, path)
    requires TextsMade(env, w', env', path, |path|) && HopsMade(w, w', env', path, |path| - 1)
    ensures forall i :: 0 <= i < |path| - 1 ==> path[i].rel.Some?
    ensures Arrival(w', NodeOf(env', NodeVar(path, 0)), PathHops(path, n), EdgesOf(env', path, n))
         == Some(NodeOf(env', NodeVar(path, n)))
  {
    hide GoodProps, TextsMade, HopsMade, NewNames, NodeOf, Across;
    forall i | 0 <= i < |path| - 1 ensures path[i].rel.Some? { LiteralRel(path, i); }
    hide GoodPath;
    if n > 0 {
      CreatedArrival(w, env, w', env', path, n - 1);
      PathHopsPrefix(path, n);
      assert EdgesOf(env', path, n)[..n - 1] == EdgesOf(env', path, n - 1);
      ArrivalStep(w', NodeOf(env', NodeVar(path, 0)), PathHops(path, n), EdgesOf(env', path, n));
      FullHop(w, env, w', env', path, n - 1);
    }
  }

  /** CREATE leads to what MATCH walks: the new edges of a path of new names are a walk of the same
      pattern from its first node to its last. */
  lemma CreatedIsWalk(stod: Stod, w: World, env: Env, path: Path<Lit>) returns (w': World)
    requires Inv(stod, w) && GoodPath(path) && Room(w, 2 * |path|) && NewNames(env, path)
    ensures forall i :: 0 <= i < |path| - 1 ==> path[i].rel.Some?
    ensures var (o, n) := (CreatePaths(stod, w.db, env, [path]), |path| - 1);
      && o.ok && o.db == w'.db && Inv(stod, w')
      && var (srcs, hops, k) := ([NodeOf(o.env, NodeVar(path, 0))], PathHops(path, n), Walk(0, EdgesOf(o.env, path, n)));
         IsWalk(w', srcs, hops, k) && EndOf(w', srcs, hops, k) == NodeOf(o.env, NodeVar(path, n))
  {
    hide Inv, GoodPath, CreatePaths, NodesMade, TextsMade, HopsMade, OnlyMade, OthersKept, NewNames, Arrival, NodeOf;
    NonEmpty(path);
    w' := CreateIsMatched(stod, w, env, path);
    CreatedArrival(w, env, w', CreatePaths(stod, w.db, env, [path]).env, path, |path| - 1);
  }

  // ---- several paths ----

  /** The relationship names of a path are no names of the other. */
  ghost predicate Apart(a: Path<Lit>, b: Path<Lit>) {
    forall i, j :: 0 <= i < |a| - 1 && 0 <= j < |b| ==> RelVar(a, i) != NodeVar(b, j) && (j < |b| - 1 ==> RelVar(a, i) != RelVar(b, j))
  }

  ghost predicate GoodPaths(paths: seq<Path<Lit>>) {
    && (forall p :: 0 <= p < |paths| ==> GoodPath(paths[p]))
    && forall p, q :: 0 <= p < |paths| && 0 <= q < |paths| && p != q ==> Apart(paths[p], paths[q])
  }

  function Elements(paths: seq<Path<Lit>>): nat {
    if paths == [] then 0 else Elements(paths[..|paths| - 1]) + |paths[|paths| - 1]|
  }

  /** The name comes first at node i of path p. */
  predicate FirstNamed(paths: seq<Path<Lit>>, p: nat, i: nat)
    requires p < |paths| && i < |paths[p]|
  {
    && !NamedBefore(paths[p], i)
    && forall q, j :: 0 <= q < p && 0 <= j < |paths[q]| ==> NodeVar(paths[q], j) != NodeVar(paths[p], i)
  }

  /** Path p is there. */
  ghost predicate PathMade(w: World, env: Env, w': World, env': Env, paths: seq<Path<Lit>>, p: nat)
    requires p < |paths| && GoodPath(paths[p])
  {
    && NodesMade(w, env, w', env', paths[p], |paths[p]|) && HopsMade(w, w', env', paths[p], |paths[p]| - 1)
    && forall i :: 0 <= i < |paths[p]| && Bound(env, NodeVar(paths[p], i)) == [] && FirstNamed(paths, p, i) ==>
         LooksLike(w', NodeOf(env', NodeVar(paths[p], i)), paths[p][i].node)
  }

  lemma NonEmpty(path: Path<Lit>)
    requires GoodPath(path)
    ensures path != []
  {
    hide GoodProps, EntriesOf;
  }

  /** A later path leaves an earlier one as it is. */
  lemma PathStays(w0: World, env0: Env, w: World, env: Env, w': World, env': Env, paths: seq<Path<Lit>>, p: nat)
    requires GoodPaths(paths) && p + 1 < |paths| && PathMade(w0, env0, w, env, paths[..|paths| - 1], p) && Grows(w, w')
    requires NodesMade(w, env, w', env', paths[|paths| - 1], |paths[|paths| - 1]|)
    requires OthersKept(env, env', paths[|paths| - 1], |paths[|paths| - 1]|, |paths[|paths| - 1]| - 1)
    ensures PathMade(w0, env0, w', env', paths, p)
  {
    hide GoodPath, Bound, NodeText, Print, EntriesOf, LooksLike, HopMade, NodeMade, Grows, GoodProps, NamedBefore, Elsewhere;
    var path, last := paths[p], paths[|paths| - 1];
    assert paths[..|paths| - 1][p] == path && Apart(path, last) && Apart(last, path) && GoodPath(path) && GoodPath(last);
    NonEmpty(path);
    NonEmpty(last);
    forall i | 0 <= i < |path| ensures Bound(env', NodeVar(path, i)) == Bound(env, NodeVar(path, i)) {
      assert NodeMade(w0, env0, w, env, NodeVar(path, i));
      NodeNameStays(w, env, w', env', last, path, i);
      NodeMadeIsBound(w0, env0, w, env, NodeVar(path, i));
    }
    forall i | 0 <= i < |path| - 1 ensures Bound(env', RelVar(path, i)) == Bound(env, RelVar(path, i)) {
      RelNameStays(path, last, i);
    }
    forall i | 0 <= i < |path| ensures NodeMade(w0, env0, w', env', NodeVar(path, i)) {
      StaysMade(w0, env0, w, env, w', env', NodeVar(path, i));
      SameNode(env, env', NodeVar(path, i));
    }
    forall i | 0 <= i < |path| && Bound(env0, NodeVar(path, i)) == [] && FirstNamed(paths, p, i)
      ensures AllLiterals(path[i].node.properties) && LooksLike(w', NodeOf(env', NodeVar(path, i)), path[i].node)
    {
      LiteralNode(path, i);
      FirstNamedBefore(paths, p, i);
      SameNode(env, env', NodeVar(path, i));
      StaysAlike(w, w', NodeOf(env, NodeVar(path, i)), path[i].node);
    }
    assert HopsMade(w0, w', env', path, |path| - 1) by { HopsStay(w0, w, env, w', env', path); }
  }

  lemma HopsStay(w0: World, w: World, env: Env, w': World, env': Env, path: Path<Lit>)
    requires GoodPath(path) && HopsMade(w0, w, env, path, |path| - 1) && Grows(w, w')
    requires forall i :: 0 <= i < |path| ==> Bound(env', NodeVar(path, i)) == Bound(env, NodeVar(path, i))
    requires forall i :: 0 <= i < |path| - 1 ==> Bound(env', RelVar(path, i)) == Bound(env, RelVar(path, i))
    ensures HopsMade(w0, w', env', path, |path| - 1)
  {
    hide NodeText, Print, EntriesOf, HopMade, Grows, GoodProps, Bound;
    forall i | 0 <= i < |path| - 1
      ensures path[i].rel.Some? && AllLiterals(path[i].rel.value.properties)
      ensures HopMade(w0, w', env', path[i].rel.value, NodeVar(path, i), NodeVar(path, i + 1))
    {
      LiteralRel(path, i);
      assert RelVar(path, i) == path[i].rel.value.variable;
      SameNode(env, env', NodeVar(path, i));
      SameNode(env, env', NodeVar(path, i + 1));
      HopStays(w0, w, env, w', env', path[i].rel.value, NodeVar(path, i), NodeVar(path, i + 1));
    }
  }

  lemma FirstNamedBefore(paths: seq<Path<Lit>>, p: nat, i: nat)
    requires p + 1 < |paths| && i < |paths[p]|
    ensures FirstNamed(paths, p, i) ==> FirstNamed(paths[..|paths| - 1], p, i)
  {
    var before := paths[..|paths| - 1];
    assert before[p] == paths[p] && forall q :: 0 <= q < p ==> before[q] == paths[q];
  }

  lemma NodeMadeIsBound(w0: World, env0: Env, w: World, env: Env, x: string)
    requires NodeMade(w0, env0, w, env, x)
    ensures Bound(env, x) != []
  {
  }

  /** A bound node name keeps its list, whether the last path has it or not. */
  lemma NodeNameStays(w: World, env: Env, w': World, env': Env, last: Path<Lit>, path: Path<Lit>, i: nat)
    requires last != [] && NodesMade(w, env, w', env', last, |last|) && OthersKept(env, env', last, |last|, |last| - 1)
    requires Apart(last, path) && i < |path|
    ensures Bound(env, NodeVar(path, i)) != [] ==> Bound(env', NodeVar(path, i)) == Bound(env, NodeVar(path, i))
  {
    hide Bound;
    var x := NodeVar(path, i);
    if j :| 0 <= j < |last| && NodeVar(last, j) == x {
      assert NodeMade(w, env, w', env', NodeVar(last, j));
    } else {
      assert Elsewhere(last, |last|, |last| - 1, x);
    }
  }

  lemma RelNameStays(path: Path<Lit>, last: Path<Lit>, i: nat)
    requires last != [] && Apart(path, last) && i + 1 < |path|
    ensures Elsewhere(last, |last|, |last| - 1, RelVar(path, i))
  {
  }

  /** Not a name of any path. */
  ghost predicate ElsewhereIn(paths: seq<Path<Lit>>, x: string) {
    forall p :: 0 <= p < |paths| && paths[p] != [] ==> Elsewhere(paths[p], |paths[p]|, |paths[p]| - 1, x)
  }

  /** All paths are there, and all other names stand for what they stood for. */
  ghost predicate PathsMade(w: World, env: Env, w': World, env': Env, paths: seq<Path<Lit>>)
    requires GoodPaths(paths)
  {
    && (forall p :: 0 <= p < |paths| ==> PathMade(w, env, w', env', paths, p))
    && forall x :: ElsewhereIn(paths, x) ==> Bound(env', x) == Bound(env, x)
  }

  /** CREATE of several paths: all of them are there at the end, whatever names they share. */
  lemma {:induction false} CreateAllPaths(stod: Stod, w: World, env: Env, paths: seq<Path<Lit>>) returns (w': World)
    requires Inv(stod, w) && GoodPaths(paths) && Room(w, 2 * Elements(paths))
    ensures var o := CreatePaths(stod, w.db, env, paths);
      && o.ok && o.db == w'.db && Inv(stod, w') && Grows(w, w') && w'.db.ids.next <= w.db.ids.next + 2 * Elements(paths)
      && PathsMade(w, env, w', o.env, paths)
    decreases |paths|
  {
    hide Inv, GoodPath, CreateElements, PathMade, Grows, Made, PathsMade, Apart;
    if paths == [] {
      w' := w;
      NothingGrows(w, env);
    } else {
      var n := |paths| - 1;
      FewerGoodPaths(paths);
      var w1 := CreateAllPaths(stod, w, env, paths[..n]);
      var o1 := CreatePaths(stod, w.db, env, paths[..n]);
      NonEmpty(paths[n]);
      w' := ElementsMake(stod, w1, o1.env, paths[n], |paths[n]|);
      var o := CreatePaths(stod, w.db, env, paths);
      assert Made(stod, w1, o1.env, w', o.env, paths[n], |paths[n]|, |paths[n]| - 1);
      MadeParts(stod, w1, o1.env, w', o.env, paths[n]);
      GrowsFurther(w, w1, w');
      OnePathMore(w, env, w1, o1.env, w', o.env, paths);
    }
  }

  lemma NothingGrows(w: World, env: Env)
    ensures Grows(w, w) && PathsMade(w, env, w, env, [])
  {
    hide NodeText;
  }

  lemma FewerGoodPaths(paths: seq<Path<Lit>>)
    requires GoodPaths(paths) && paths != []
    ensures GoodPaths(paths[..|paths| - 1]) && GoodPath(paths[|paths| - 1])
  {
    hide GoodPath, Apart;
    var n := |paths| - 1;
    assert forall p :: 0 <= p < n ==> paths[..n][p] == paths[p];
  }

  lemma MadeParts(stod: Stod, w: World, env: Env, w': World, env': Env, path: Path<Lit>)
    requires GoodPath(path) && Made(stod, w, env, w', env', path, |path|, |path| - 1)
    ensures Inv(stod, w') && Grows(w, w') && w'.db.ids.next <= w.db.ids.next + 2 * |path|
    ensures NodesMade(w, env, w', env', path, |path|) && TextsMade(env, w', env', path, |path|)
    ensures HopsMade(w, w', env', path, |path| - 1) && OthersKept(env, env', path, |path|, |path| - 1)
  {
    hide Inv, Grows, NodesMade, TextsMade, HopsMade, OthersKept, OnlyMade;
  }

  lemma OnePathMore(w: World, env: Env, w1: World, env1: Env, w': World, env': Env, paths: seq<Path<Lit>>)
    requires paths != [] && GoodPaths(paths) && GoodPaths(paths[..|paths| - 1]) && GoodPath(paths[|paths| - 1])
    requires PathsMade(w, env, w1, env1, paths[..|paths| - 1]) && Grows(w, w1) && Grows(w1, w')
    requires NodesMade(w1, env1, w', env', paths[|paths| - 1], |paths[|paths| - 1]|)
    requires TextsMade(env1, w', env', paths[|paths| - 1], |paths[|paths| - 1]|)
    requires HopsMade(w1, w', env', paths[|paths| - 1], |paths[|paths| - 1]| - 1)
    requires OthersKept(env1, env', paths[|paths| - 1], |paths[|paths| - 1]|, |paths[|paths| - 1]| - 1)
    ensures PathsMade(w, env, w', env', paths)
  {
    hide GoodPath, Bound, NodesMade, TextsMade, HopsMade, Grows, Apart, PathMade, Elsewhere;
    var n := |paths| - 1;
    var before := paths[..n];
    NonEmpty(paths[n]);
    forall p | 0 <= p < |paths| ensures PathMade(w, env, w', env', paths, p) {
      if p < n {
        assert before[p] == paths[p] && PathMade(w, env, w1, env1, before, p);
        PathStays(w, env, w1, env1, w', env', paths, p);
      } else {
        LastPathMade(w, env, w1, env1, w', env', paths);
      }
    }
    forall x | ElsewhereIn(paths, x) ensures Bound(env', x) == Bound(env, x) {
      assert ElsewhereIn(before, x) by { assert forall p :: 0 <= p < n ==> before[p] == paths[p]; }
    }
  }

  /** A node name of the last path that stands for something new there was unbound and unnamed before. */
  lemma EarlierName(w: World, env: Env, w1: World, env1: Env, paths: seq<Path<Lit>>, i: nat)
    requires paths != [] && GoodPaths(paths) && GoodPaths(paths[..|paths| - 1]) && i < |paths[|paths| - 1]|
    requires PathsMade(w, env, w1, env1, paths[..|paths| - 1])
    ensures var x := NodeVar(paths[|paths| - 1], i);
      || NodeMade(w, env, w1, env1, x)
      || (Bound(env1, x) == Bound(env, x) && forall q, j :: 0 <= q < |paths| - 1 && 0 <= j < |paths[q]| ==> NodeVar(paths[q], j) != x)
    ensures FirstNamed(paths, |paths| - 1, i) ==> Bound(env1, NodeVar(paths[|paths| - 1], i)) == Bound(env, NodeVar(paths[|paths| - 1], i))
  {
    hide GoodPath, Bound, HopsMade, NodeMade, LooksLike;
    var n := |paths| - 1;
    var x, before := NodeVar(paths[n], i), paths[..n];
    assert forall p :: 0 <= p < n ==> before[p] == paths[p];
    if q, j :| 0 <= q < n && 0 <= j < |paths[q]| && NodeVar(paths[q], j) == x {
      assert PathMade(w, env, w1, env1, before, q);
      assert NodeMade(w, env, w1, env1, NodeVar(before[q], j));
    } else {
      forall p | 0 <= p < n && before[p] != [] ensures Elsewhere(before[p], |before[p]|, |before[p]| - 1, x) {
        assert Apart(paths[p], paths[n]);
      }
      assert ElsewhereIn(before, x);
    }
  }

  lemma LastNodeMade(w: World, env: Env, w1: World, env1: Env, w': World, env': Env, x: string)
    requires Grows(w, w1) && Grows(w1, w') && NodeMade(w1, env1, w', env', x)
    requires NodeMade(w, env, w1, env1, x) || Bound(env1, x) == Bound(env, x)
    ensures NodeMade(w, env, w', env', x)
  {
    hide NodeText;
  }

  lemma LastHopMade(w: World, w1: World, w': World, env': Env, rel: Rel<Lit>, left: string, right: string)
    requires AllLiterals(rel.properties) && Grows(w, w1) && HopMade(w1, w', env', rel, left, right)
    ensures HopMade(w, w', env', rel, left, right)
  {
    hide NodeText, Print, EntriesOf;
  }

  /** The last path, seen from the start: a name the earlier paths made stands for what they made. */
  lemma LastPathMade(w: World, env: Env, w1: World, env1: Env, w': World, env': Env, paths: seq<Path<Lit>>)
    requires paths != [] && GoodPaths(paths) && GoodPaths(paths[..|paths| - 1]) && GoodPath(paths[|paths| - 1])
    requires PathsMade(w, env, w1, env1, paths[..|paths| - 1]) && Grows(w, w1) && Grows(w1, w')
    requires NodesMade(w1, env1, w', env', paths[|paths| - 1], |paths[|paths| - 1]|)
    requires TextsMade(env1, w', env', paths[|paths| - 1], |paths[|paths| - 1]|)
    requires HopsMade(w1, w', env', paths[|paths| - 1], |paths[|paths| - 1]| - 1)
    ensures PathMade(w, env, w', env', paths, |paths| - 1)
  {
    hide GoodProps, Bound, Grows, PathsMade, NodeMade, LooksLike, HopMade, EntriesOf, NamedBefore;
    var n := |paths| - 1;
    var path := paths[n];
    forall i | 0 <= i < |path| ensures NodeMade(w, env, w', env', NodeVar(path, i)) {
      EarlierName(w, env, w1, env1, paths, i);
      LastNodeMade(w, env, w1, env1, w', env', NodeVar(path, i));
    }
    forall i | 0 <= i < |path| && Bound(env, NodeVar(path, i)) == [] && FirstNamed(paths, n, i)
      ensures AllLiterals(path[i].node.properties) && LooksLike(w', NodeOf(env', NodeVar(path, i)), path[i].node)
    {
      EarlierName(w, env, w1, env1, paths, i);
      LiteralNode(path, i);
    }
    forall i | 0 <= i < |path| - 1
      ensures path[i].rel.Some? && AllLiterals(path[i].rel.value.properties)
      ensures HopMade(w, w', env', path[i].rel.value, NodeVar(path, i), NodeVar(path, i + 1))
    {
      LiteralRel(path, i);
      LastHopMade(w, w1, w', env', path[i].rel.value, NodeVar(path, i), NodeVar(path, i + 1));
    }
  }
}
