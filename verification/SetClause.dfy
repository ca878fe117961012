/** SET (executor.cpp): assignments are collected per node and every node is written once. Writing each
    assignment at once through the same storage call gives the same node texts and the same index. */
module SetClause {
  import opened Bytes
  import opened Ast
  import opened Json
  import opened JsonLaws
  import opened Store
  import opened PropertyIndex
  import opened Runs
  import opened RunResults
  import opened Matching

  /** One assignment to one node, with the label its variable was bound with. */
  datatype SetStep = SetStep(id: u64, lbl: string, key: string, text: string, isString: bool)

  /** A value that is not a literal is the empty text. */
  function StepOf(env: Env, a: Assignment<Lit>, id: u64): SetStep {
    var lit := if a.value.Literal? then a.value.lit else Lit("", false);
    SetStep(id, if a.variable in env.labels then env.labels[a.variable] else "", a.property, lit.text, lit.isString)
  }

  function StepsOf(env: Env, a: Assignment<Lit>, ids: seq<u64>): (r: seq<SetStep>)
    ensures |r| == |ids|
  {
    seq(|ids|, i requires 0 <= i < |ids| => StepOf(env, a, ids[i]))
  }

  function AllSteps(env: Env, assignments: seq<Assignment<Lit>>): seq<SetStep> {
    if assignments == [] then [] else
    var a := assignments[|assignments| - 1];
    AllSteps(env, assignments[..|assignments| - 1]) + StepsOf(env, a, Bound(env, a.variable))
  }

  // ---- phase 1 ----

  datatype Pending = Pending(lbl: string, text: string)

  /** The entry an assignment starts from: an empty text is read from the store again. */
  function Current(d: Db, p: map<u64, Pending>, s: SetStep): Pending {
    if s.id in p && p[s.id].text != "" then p[s.id] else Pending(s.lbl, NodeText(d, s.id))
  }

  /** None where update_json_property throws. */
  function Collect(d: Db, steps: seq<SetStep>): Option<map<u64, Pending>> {
    if steps == [] then Some(map[]) else
    var s := steps[|steps| - 1];
    match Collect(d, steps[..|steps| - 1])
    case None => None
    case Some(p) =>
      match Update(Current(d, p, s).text, s.key, s.text, s.isString)
      case None => None
      case Some(text) => Some(p[s.id := Pending(Current(d, p, s).lbl, text)])
  }

  // ---- writes ----

  /** One call of `update_node_with_label` (or `update_node` without a label), with the orders its delta
      loops happened to take. */
  datatype Write = Write(id: u64, lbl: string, text: string, removals: seq<string>, additions: seq<string>)

  ghost predicate OrdersFit(stod: Stod, d: Db, ws: seq<Write>)
    decreases |ws|, 0
  {
    ws == [] ||
    var n := |ws| - 1;
    && OrdersFit(stod, d, ws[..n])
    && DeltaOrders(NodeText(AfterWrites(stod, d, ws[..n]), ws[n].id), ws[n].text, ws[n].removals, ws[n].additions)
  }

  ghost function AfterWrites(stod: Stod, d: Db, ws: seq<Write>): Db
    requires OrdersFit(stod, d, ws)
    decreases |ws|, 1
  {
    if ws == [] then d else
    var n := |ws| - 1;
    DoWrite(stod, AfterWrites(stod, d, ws[..n]), ws[n])
  }

  function DoWrite(stod: Stod, d: Db, v: Write): Db
    requires DeltaOrders(NodeText(d, v.id), v.text, v.removals, v.additions)
  {
    if v.lbl == "" then UpdateNode(d, v.id, v.text)
    else UpdateNodeWithLabel(stod, d, v.id, v.lbl, v.text, v.removals, v.additions)
  }

  /** The text of a node after some writes. */
  function TextAfter(d: Db, ws: seq<Write>, id: u64): string {
    if ws == [] then NodeText(d, id) else
    var n := |ws| - 1;
    if ws[n].id == id then ws[n].text else TextAfter(d, ws[..n], id)
  }

  /** Phase 2: every collected node once, in whatever order. */
  ghost predicate Deferred(d: Db, steps: seq<SetStep>, ws: seq<Write>) {
    Collect(d, steps).Some? && WritesOnce(Collect(d, steps).value, ws)
  }

  ghost predicate WritesOnce(p: map<u64, Pending>, ws: seq<Write>) {
    && (forall i, j :: 0 <= i < j < |ws| ==> ws[i].id != ws[j].id)
    && (forall id :: id in p <==> exists i :: 0 <= i < |ws| && ws[i].id == id)
    && (forall i :: 0 <= i < |ws| ==> ws[i].id in p && Pending(ws[i].lbl, ws[i].text) == p[ws[i].id])
  }

  /** Every assignment written at once. */
  predicate Immediate(d: Db, steps: seq<SetStep>, ws: seq<Write>) {
    && |ws| == |steps|
    && forall i :: 0 <= i < |ws| ==> ImmediateAt(d, steps, ws, i)
  }

  predicate ImmediateAt(d: Db, steps: seq<SetStep>, ws: seq<Write>, i: nat)
    requires i < |ws| == |steps|
  {
    && ws[i].id == steps[i].id && ws[i].lbl == steps[i].lbl
    && Update(TextAfter(d, ws[..i], ws[i].id), steps[i].key, steps[i].text, steps[i].isString) == Some(ws[i].text)
  }

  // ---- printed texts ----

  ghost predicate PrintedText(text: string) {
    exists es :: WellFormed(es) && DistinctKeys(es) && text == Print(es)
  }

  function StepValue(s: SetStep): Value {
    if s.isString then Str(s.text) else Num(s.text)
  }

  lemma PrintedIsValid(text: string)
    requires PrintedText(text)
    ensures ValidText(text) && text != ""
  {
    var es: seq<Entry> :| WellFormed(es) && DistinctKeys(es) && text == Print(es);
    ParsePrint(es);
    var fs := Parse(text);
    forall i | 0 <= i < |fs| ensures NulFree(fs[i].key) {
      var k := es[i].key;
      assert IsIdentifier(k);
      forall j | 0 <= j < |k| ensures k[j] != '\0' { assert IsIdentifierChar(k[j]); }
    }
  }

  lemma UpdateStaysPrinted(text: string, s: SetStep)
    requires PrintedText(text) && IsIdentifier(s.key) && WellFormedValue(StepValue(s))
    ensures Update(text, s.key, s.text, s.isString).Some?
    ensures PrintedText(Update(text, s.key, s.text, s.isString).value)
  {
    var es: seq<Entry> :| WellFormed(es) && DistinctKeys(es) && text == Print(es);
    UpdatePrint(es, s.key, StepValue(s));
    UpdateKeepsShape(es, s.key, StepValue(s));
  }

  /** Texts a node of this world may get: a deleted one stays empty, the others stay printed. */
  ghost predicate GoodText(w: World, id: u64, text: string) {
    if NodeText(w.db, id) == "" then text == "" else PrintedText(text)
  }

  /** The assignments the law is about: literals for nodes, deleted or with printed texts, each bound under
      the node's own label. */
  ghost predicate GoodStep(w: World, s: SetStep) {
    && s.id in w.labels && s.lbl == w.labels[s.id] && GoodText(w, s.id, NodeText(w.db, s.id))
    && IsIdentifier(s.key) && WellFormedValue(StepValue(s))
  }

  ghost predicate GoodWrite(w: World, v: Write) {
    v.id in w.labels && v.lbl == w.labels[v.id] && GoodText(w, v.id, v.text)
  }

  lemma NothingToUpdate(key: string, value: string, isString: bool)
    ensures Update("", key, value, isString) == Some("")
  {
  }

  lemma UpdateStaysGood(w: World, s: SetStep, text: string)
    requires GoodStep(w, s) && GoodText(w, s.id, text)
    ensures Update(text, s.key, s.text, s.isString).Some?
    ensures GoodText(w, s.id, Update(text, s.key, s.text, s.isString).value)
  {
    hide PrintedText, Update, NodeText, IsIdentifier, WellFormedValue;
    if NodeText(w.db, s.id) == "" {
      NothingToUpdate(s.key, s.text, s.isString);
    } else {
      UpdateStaysPrinted(text, s);
    }
  }

  lemma GoodIsValid(w: World, id: u64, text: string)
    requires GoodText(w, id, text)
    ensures ValidText(text) && (text == "" <==> NodeText(w.db, id) == "")
  {
    hide PrintedText, NodeText, ValidText;
    PlainIsValid();
    if text != "" { PrintedIsValid(text); } else if NodeText(w.db, id) != "" { PrintedIsValid(text); }
  }

  // ---- texts agree ----

  lemma {:induction false} TextAfterGood(w: World, ws: seq<Write>, id: u64)
    requires GoodText(w, id, NodeText(w.db, id)) && forall i :: 0 <= i < |ws| ==> GoodWrite(w, ws[i])
    ensures GoodText(w, id, TextAfter(w.db, ws, id))
  {
    hide GoodText, NodeText;
    if ws != [] && ws[|ws| - 1].id != id { TextAfterGood(w, ws[..|ws| - 1], id); }
  }

  lemma {:induction false} ImmediateIsGood(w: World, steps: seq<SetStep>, ws: seq<Write>)
    requires (forall i :: 0 <= i < |steps| ==> GoodStep(w, steps[i])) && Immediate(w.db, steps, ws)
    ensures forall i :: 0 <= i < |ws| ==> GoodWrite(w, ws[i])
    decreases |ws|
  {
    hide GoodText, Update, TextAfter, NodeText, IsIdentifier, WellFormedValue;
    if ws != [] {
      var n := |ws| - 1;
      ImmediatePrefix(w.db, steps, ws);
      ImmediateIsGood(w, steps[..n], ws[..n]);
      assert ImmediateAt(w.db, steps, ws, n);
      TextAfterGood(w, ws[..n], ws[n].id);
      UpdateStaysGood(w, steps[n], TextAfter(w.db, ws[..n], ws[n].id));
      forall i | 0 <= i < |ws| ensures GoodWrite(w, ws[i]) {
        if i < n { assert ws[..n][i] == ws[i]; }
      }
    }
  }

  lemma ImmediatePrefix(d: Db, steps: seq<SetStep>, ws: seq<Write>)
    requires Immediate(d, steps, ws) && ws != []
    ensures Immediate(d, steps[..|steps| - 1], ws[..|ws| - 1])
  {
    hide Update, TextAfter;
    var n := |ws| - 1;
    forall i | 0 <= i < n ensures ImmediateAt(d, steps[..n], ws[..n], i) {
      assert ImmediateAt(d, steps, ws, i) && ws[..n][..i] == ws[..i];
    }
  }

  /** What phase 1 has collected, p, says what immediate writing, ws, has done. */
  ghost predicate CollectedLike(w: World, ws: seq<Write>, p: map<u64, Pending>) {
    && (forall id :: id in p ==> id in w.labels && p[id].lbl == w.labels[id] && GoodText(w, id, p[id].text))
    && (forall id :: TextAfter(w.db, ws, id) == if id in p then p[id].text else NodeText(w.db, id))
  }

  lemma {:induction false} CollectedIsImmediate(w: World, steps: seq<SetStep>, ws: seq<Write>)
    requires (forall i :: 0 <= i < |steps| ==> GoodStep(w, steps[i])) && Immediate(w.db, steps, ws)
    ensures Collect(w.db, steps).Some? && CollectedLike(w, ws, Collect(w.db, steps).value)
    decreases |steps|
  {
    hide GoodText, Update, Current, CollectedLike, NodeText, TextAfter, IsIdentifier, WellFormedValue;
    if steps == [] {
      NothingCollected(w);
    } else {
      var n := |steps| - 1;
      ImmediatePrefix(w.db, steps, ws);
      CollectedIsImmediate(w, steps[..n], ws[..n]);
      ImmediateIsGood(w, steps, ws);
      assert ImmediateAt(w.db, steps, ws, n) && GoodWrite(w, ws[n]);
      var p := Collect(w.db, steps[..n]).value;
      CurrentIsWritten(w, ws[..n], p, steps[n]);
      CollectedOneMore(w, ws, p);
    }
  }

  lemma NothingCollected(w: World)
    ensures CollectedLike(w, [], map[])
  {
  }

  /** The text an assignment starts from in phase 1 is the one immediate writing has left. */
  lemma CurrentIsWritten(w: World, ws: seq<Write>, p: map<u64, Pending>, s: SetStep)
    requires CollectedLike(w, ws, p) && GoodStep(w, s)
    ensures Current(w.db, p, s) == Pending(s.lbl, TextAfter(w.db, ws, s.id))
  {
    hide GoodText, NodeText, TextAfter, IsIdentifier, WellFormedValue, ValidText;
    if s.id in p { GoodIsValid(w, s.id, p[s.id].text); }
  }

  lemma CollectedOneMore(w: World, ws: seq<Write>, p: map<u64, Pending>)
    requires ws != [] && CollectedLike(w, ws[..|ws| - 1], p) && GoodWrite(w, ws[|ws| - 1])
    ensures var v := ws[|ws| - 1]; CollectedLike(w, ws, p[v.id := Pending(v.lbl, v.text)])
  {
    hide GoodText, NodeText;
  }

  lemma {:induction false} DeferredTexts(d: Db, p: map<u64, Pending>, ws: seq<Write>, id: u64)
    requires forall i :: 0 <= i < |ws| ==> ws[i].id in p && ws[i].text == p[ws[i].id].text
    ensures TextAfter(d, ws, id)
         == if exists i :: 0 <= i < |ws| && ws[i].id == id then p[id].text else NodeText(d, id)
  {
    if ws != [] {
      var n := |ws| - 1;
      DeferredTexts(d, p, ws[..n], id);
      if i :| 0 <= i < |ws| && ws[i].id == id {
        if i < n { assert ws[..n][i].id == id; }
      }
    }
  }

  // ---- the index follows the texts ----

  lemma WriteIsUpdateOp(stod: Stod, w: World, v: Write)
    requires v.id in w.labels && v.lbl == w.labels[v.id]
    requires DeltaOrders(NodeText(w.db, v.id), v.text, v.removals, v.additions)
    ensures DoWrite(stod, w.db, v)
         == UpdateNodeWithLabel(stod, w.db, v.id, w.labels[v.id], v.text, v.removals, v.additions)
  {
  }

  /** Writing keeps the invariants and gives the nodes their new texts. */
  lemma {:induction false} WritesEffect(stod: Stod, w: World, ws: seq<Write>)
    requires Inv(stod, w) && OrdersFit(stod, w.db, ws) && forall i :: 0 <= i < |ws| ==> GoodWrite(w, ws[i])
    ensures Inv(stod, w.(db := AfterWrites(stod, w.db, ws)))
    ensures forall id :: NodeText(AfterWrites(stod, w.db, ws), id) == TextAfter(w.db, ws, id)
  {
    hide Inv, GoodText, DeltaOrders, DoWrite, TextOf;
    if ws != [] {
      var n := |ws| - 1;
      assert forall i :: 0 <= i < n ==> ws[..n][i] == ws[i];
      WritesEffect(stod, w, ws[..n]);
      assert GoodWrite(w, ws[n]);
      WriteEffect(stod, w, w.(db := AfterWrites(stod, w.db, ws[..n])), ws[n]);
    } else {
      assert w.(db := w.db) == w;
    }
  }

  /** A single write is one step of a run of the storage. */
  lemma WriteEffect(stod: Stod, w: World, w1: World, v: Write)
    requires Inv(stod, w) && Inv(stod, w1) && w1 == w.(db := w1.db) && GoodWrite(w, v)
    requires DeltaOrders(NodeText(w1.db, v.id), v.text, v.removals, v.additions)
    ensures Inv(stod, w.(db := DoWrite(stod, w1.db, v)))
    ensures forall id :: NodeText(DoWrite(stod, w1.db, v), id) == if id == v.id then v.text else NodeText(w1.db, id)
  {
    hide Inv, ToKey, FromKey, DoWrite, DeltaOrders, ValidText, GoodText, TextOf, UpdateNodeWithLabel;
    GoodIsValid(w, v.id, v.text);
    if v.id in w.deletedNodes { DeletedStays(stod, w, v.id); }
    WriteIsUpdateOp(stod, w1, v);
    var op := UpdateNodeOp(v.id, v.text, v.removals, v.additions);
    StepKeepsInv(stod, w1, op);
    assert Step(stod, w1, op) == w.(db := DoWrite(stod, w1.db, v));
    WrittenText(stod, w1.db, v);
  }

  lemma WrittenText(stod: Stod, d: Db, v: Write)
    requires DeltaOrders(NodeText(d, v.id), v.text, v.removals, v.additions)
    ensures DoWrite(stod, d, v).nodes == d.nodes[ToKey(v.id) := v.text]
    ensures forall id :: NodeText(DoWrite(stod, d, v), id) == if id == v.id then v.text else NodeText(d, id)
  {
    hide DeltaIndex, IndexNode, FromKey, ToKey, DeltaOrders, TextOf;
    OthersKeepText(d.nodes, v.id, v.text);
    TextWritten(d.nodes, v.id, v.text);
  }

  /** The same node texts and, key by key, the same ids in the index. */
  ghost predicate SameOutcome(a: Db, b: Db) {
    && a.nodes == b.nodes
    && forall k, x :: x in Listed(a.propIndex, k) <==> x in Listed(b.propIndex, k)
  }

  /** Deferred SET equals immediate SET, for repeated ids and any order of the final writes. */
  lemma DeferredEqualsImmediate(stod: Stod, w: World, steps: seq<SetStep>, later: seq<Write>, atOnce: seq<Write>)
    requires Inv(stod, w) && forall i :: 0 <= i < |steps| ==> GoodStep(w, steps[i])
    requires Deferred(w.db, steps, later) && OrdersFit(stod, w.db, later)
    requires Immediate(w.db, steps, atOnce) && OrdersFit(stod, w.db, atOnce)
    ensures SameOutcome(AfterWrites(stod, w.db, later), AfterWrites(stod, w.db, atOnce))
  {
    hide Inv, Listed, ToKey, FromKey, GoodStep, GoodText, AfterWrites, OrdersFit, Update, TextAfter, Collect, TextOf;
    var a, b := AfterWrites(stod, w.db, later), AfterWrites(stod, w.db, atOnce);
    CollectedIsImmediate(w, steps, atOnce);
    ImmediateIsGood(w, steps, atOnce);
    WritesEffect(stod, w, atOnce);
    var p := Collect(w.db, steps).value;
    assert forall i :: 0 <= i < |later| ==> GoodWrite(w, later[i]);
    WritesEffect(stod, w, later);
    forall id ensures NodeText(a, id) == NodeText(b, id) {
      DeferredTexts(w.db, p, later, id);
    }
    SameTextsSameIndex(stod, w, a, b);
  }

  lemma SameTextsSameIndex(stod: Stod, w: World, a: Db, b: Db)
    requires Inv(stod, w.(db := a)) && Inv(stod, w.(db := b)) && forall id: u64 :: NodeText(a, id) == NodeText(b, id)
    ensures a.nodes == b.nodes
    ensures forall k, x :: x in Listed(a.propIndex, k) <==> x in Listed(b.propIndex, k)
  {
    hide Inv, Listed, Holds, NodeText, LastText;
    SameTextsSameNodes(stod, w, a, b);
    forall k, x ensures x in Listed(a.propIndex, k) <==> x in Listed(b.propIndex, k) {
      ListIs(stod, w.(db := a), k);
      ListIs(stod, w.(db := b), k);
      SameLast(w, a, b, x);
    }
  }

  lemma SameLast(w: World, a: Db, b: Db, x: u64)
    requires a.nodes == b.nodes
    ensures LastText(w.(db := a), x) == LastText(w.(db := b), x)
  {
  }

  lemma SameTextsSameNodes(stod: Stod, w: World, a: Db, b: Db)
    requires Inv(stod, w.(db := a)) && Inv(stod, w.(db := b)) && forall id: u64 :: NodeText(a, id) == NodeText(b, id)
    ensures a.nodes == b.nodes
  {
    hide ToKey, FromKey, IndexInv, ValidText, NulFree, RecordsInv, IndexedBy;
    assert forall k :: k in a.nodes <==> k in b.nodes;
    forall k | k in a.nodes ensures a.nodes[k] == b.nodes[k] {
      assert k == ToKey(FromKey(k));
      assert NodeText(a, FromKey(k)) == NodeText(b, FromKey(k));
    }
  }

  // ---- there is something to compare ----

  /** Good assignments can be written at once: no update throws. */
  lemma {:induction false} ImmediateExists(stod: Stod, w: World, steps: seq<SetStep>) returns (ws: seq<Write>)
    requires Inv(stod, w) && forall i :: 0 <= i < |steps| ==> GoodStep(w, steps[i])
    ensures Immediate(w.db, steps, ws) && OrdersFit(stod, w.db, ws)
  {
    hide Inv, GoodText, Update, TextAfter, NodeText, IsIdentifier, WellFormedValue, DeltaOrders, DoWrite, AfterWrites;
    ws := [];
    if steps != [] {
      var n := |steps| - 1;
      var s := steps[n];
      ws := ImmediateExists(stod, w, steps[..n]);
      ImmediateIsGood(w, steps[..n], ws);
      TextAfterGood(w, ws, s.id);
      UpdateStaysGood(w, s, TextAfter(w.db, ws, s.id));
      var text := Update(TextAfter(w.db, ws, s.id), s.key, s.text, s.isString).value;
      var removals, additions := SomeOrders(NodeText(AfterWrites(stod, w.db, ws), s.id), text);
      var v := Write(s.id, s.lbl, text, removals, additions);
      ImmediateOneMore(w.db, steps, ws, v);
      assert (ws + [v])[..n] == ws;
      ws := ws + [v];
    }
  }

  lemma ImmediateOneMore(d: Db, steps: seq<SetStep>, ws: seq<Write>, v: Write)
    requires steps != [] && Immediate(d, steps[..|steps| - 1], ws)
    requires var s := steps[|steps| - 1];
      v.id == s.id && v.lbl == s.lbl && Update(TextAfter(d, ws, s.id), s.key, s.text, s.isString) == Some(v.text)
    ensures Immediate(d, steps, ws + [v])
  {
    hide Update, TextAfter;
    var n := |ws|;
    var more := ws + [v];
    forall i | 0 <= i < |more| ensures ImmediateAt(d, steps, more, i) {
      if i < n {
        assert ImmediateAt(d, steps[..n], ws, i) && more[..i] == ws[..i];
      } else {
        assert more[..n] == ws;
      }
    }
  }

  /** Writing every assignment at once is possible like this, and the outcome is that of d. */
  ghost predicate WrittenAtOnce(stod: Stod, w: World, steps: seq<SetStep>, ws: seq<Write>, d: Db) {
    Immediate(w.db, steps, ws) && OrdersFit(stod, w.db, ws) && SameOutcome(d, AfterWrites(stod, w.db, ws))
  }

  /** What SET does to good assignments is always what writing each at once would have done. */
  lemma SetIsImmediate(stod: Stod, w: World, steps: seq<SetStep>, later: seq<Write>)
    requires Inv(stod, w) && forall i :: 0 <= i < |steps| ==> GoodStep(w, steps[i])
    requires Deferred(w.db, steps, later) && OrdersFit(stod, w.db, later)
    ensures exists atOnce :: WrittenAtOnce(stod, w, steps, atOnce, AfterWrites(stod, w.db, later))
  {
    hide Inv, GoodStep, Deferred, Immediate, OrdersFit, AfterWrites, Listed;
    var atOnce := ImmediateExists(stod, w, steps);
    DeferredEqualsImmediate(stod, w, steps, later, atOnce);
    assert WrittenAtOnce(stod, w, steps, atOnce, AfterWrites(stod, w.db, later));
  }
}
