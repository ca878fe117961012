/** Every run of storage operations, and what holds after it: ids are never issued twice, the
    property index agrees with the node texts, the adjacency and label indexes agree with what was
    created. The world remembers the label each node and the data each edge was created with, which
    edges were deleted, and which nodes, with the text each had when it was deleted. */
module Runs {
  import opened Bytes
  import opened SortableDouble
  import opened Store
  import opened PropertyIndex

  datatype World = World(db: Db, labels: map<u64, string>, edges: map<u64, Edge>, deletedEdges: set<u64>,
                         deletedNodes: map<u64, string>)

  datatype Op =
    | CreateNodeOp(lbl: string, text: string)
    | UpdateNodeOp(id: u64, text: string, removals: seq<string>, additions: seq<string>)
    | PlainUpdateOp(id: u64, text: string)
    | DeleteNodeOp(id: u64, withLabel: bool)
    | CreateEdgeOp(edge: Edge)
    | DeleteEdgeOp(edgeId: u64)
    | RestartOp

  const START: World := World(EMPTY, map[], map[], {}, map[])

  /** Room for one more id below the 63-bit bound of the sequence. */
  predicate IdsLeft(s: Ids) { s.next + SEQUENCE_BATCH_SIZE <= TWO63 }

  predicate Live(w: World, id: u64) {
    id in w.labels && NodeText(w.db, id) != ""
  }

  /** Created and not deleted since. */
  predicate Kept(w: World, id: u64) {
    id in w.labels && id !in w.deletedNodes
  }

  /** The text a node has, or had when it was deleted. */
  function LastText(w: World, id: u64): string {
    LastOf(w.deletedNodes, w.db.nodes, id)
  }

  function LastOf(dead: map<u64, string>, nodes: Table, id: u64): string {
    if id in dead then dead[id] else TextOf(nodes, id)
  }

  /** The calls the executor makes: labels without NUL, texts it printed, updates under a node's own label
      or, for a variable bound without a label, of the text alone, deletes with the node's label or, as
      DELETE does, with none. A deleted node is only ever updated to the empty text it already has. An
      update of the text alone is a step here if the old and the new text have the same index keys;
      `PlainUpdateKeepsInvIff` says what happens otherwise. */
  ghost predicate Enabled(stod: Stod, w: World, op: Op) {
    match op
    case CreateNodeOp(lbl, text) => IdsLeft(w.db.ids) && NulFree(lbl) && ValidText(text)
    case UpdateNodeOp(id, text, removals, additions) =>
      && id in w.labels && ValidText(text) && (id in w.deletedNodes ==> text == "")
      && DeltaOrders(NodeText(w.db, id), text, removals, additions)
    case PlainUpdateOp(id, text) =>
      && id in w.labels && ValidText(text)
      && if id in w.deletedNodes then text == "" else SameHeld(stod, w.labels[id], NodeText(w.db, id), text)
    case DeleteNodeOp(id, _) => id in w.labels
    case CreateEdgeOp(e) => IdsLeft(w.db.ids) && 20 + |e.lbl| < TWO32
    case DeleteEdgeOp(_) => true
    case RestartOp => true
  }

  /** Two texts are indexed under the same keys. */
  ghost predicate SameHeld(stod: Stod, lbl: string, a: string, b: string) {
    forall k :: Holds(stod, lbl, a, k) <==> Holds(stod, lbl, b, k)
  }

  function Step(stod: Stod, w: World, op: Op): World
    requires op.UpdateNodeOp? ==> Enabled(stod, w, op)
  {
    match op
    case CreateNodeOp(lbl, text) =>
      var c := CreateNode(stod, w.db, lbl, text);
      w.(db := c.db, labels := if c.ok then w.labels[c.id := lbl] else w.labels)
    case UpdateNodeOp(id, text, removals, additions) =>
      w.(db := UpdateNodeWithLabel(stod, w.db, id, w.labels[id], text, removals, additions))
    case PlainUpdateOp(id, text) => w.(db := UpdateNode(w.db, id, text))
    case DeleteNodeOp(id, withLabel) =>
      w.(db := DeleteNode(w.db, id, if withLabel && id in w.labels then w.labels[id] else ""),
         deletedNodes := Buried(w, id))
    case CreateEdgeOp(e) =>
      var c := CreateEdge(w.db, e);
      w.(db := c.db, edges := if c.ok then w.edges[c.id := e] else w.edges)
    case DeleteEdgeOp(id) =>
      w.(db := DeleteEdge(w.db, id),
         deletedEdges := if id in w.edges then w.deletedEdges + {id} else w.deletedEdges)
    case RestartOp => w.(db := w.db.(ids := Recover(w.db.ids)))
  }

  /** A node deleted twice keeps the text of the first time. */
  function Buried(w: World, id: u64): map<u64, string> {
    if id in w.deletedNodes then w.deletedNodes else w.deletedNodes[id := NodeText(w.db, id)]
  }

  /** w' is reached from w by the operations, each allowed where it happens. */
  ghost predicate RunsTo(stod: Stod, w: World, ops: seq<Op>, w': World)
    decreases |ops|
  {
    if ops == [] then w == w'
    else Enabled(stod, w, ops[0]) && RunsTo(stod, Step(stod, w, ops[0]), ops[1..], w')
  }

  // ---- the invariants ----

  /** `persisted = next_id_ - 1 + sequence_batch_remaining_`. */
  predicate IdsInv(s: Ids) {
    && 1 <= s.next && s.remaining < SEQUENCE_BATCH_SIZE
    && s.durable == s.next - 1 + s.remaining && s.durable < TWO63
    && s.version == s.durableVersion
  }

  /** The node table holds exactly the created nodes, whose ids were issued; deleted ones are empty. */
  ghost predicate NodesInv(labels: map<u64, string>, dead: map<u64, string>, nodes: Table, next: u64) {
    && (forall id :: id in labels ==>
          1 <= id < next && ToKey(id) in nodes && NulFree(labels[id]) && ValidText(nodes[ToKey(id)]))
    && (forall k :: k in nodes ==> |k| == 8 && k == ToKey(FromKey(k)) && FromKey(k) in labels)
    && (forall id :: id in dead ==> id in labels && TextOf(nodes, id) == "" && ValidText(dead[id]))
  }

  /** Every list is duplicate-free and has exactly the nodes whose text, or whose text when they were
      deleted, holds the property. */
  ghost predicate IndexInv(stod: Stod, labels: map<u64, string>, dead: map<u64, string>, nodes: Table, ix: Table) {
    && WellPacked(ix)
    && (forall k, id :: id in Listed(ix, k) <==> id in labels && Holds(stod, labels[id], LastOf(dead, nodes, id), k))
    && KeysBuilt(stod, ix)
  }

  ghost predicate Built(stod: Stod, k: string) {
    exists lbl, key, value :: NulFree(lbl) && NulFree(key) && k == BuildKey(stod, lbl, key, value)
  }

  /** Every key of the index is the key of some property. */
  ghost predicate KeysBuilt(stod: Stod, ix: Table) {
    forall k :: k in ix ==> Built(stod, k)
  }

  /** The id in the last 8 bytes of an adjacency or label index key. */
  function TailId(k: string): u64 {
    if |k| < 8 then 0 else FromKey(k[|k| - 8..])
  }

  function Keyed(p: string, id: u64): (k: string)
    ensures TailId(k) == id && |k| == |p| + 8
  {
    var k := p + ToKey(id);
    assert k[|k| - 8..] == ToKey(id);
    k
  }

  /** The keys of an index are exactly the prefixes followed by their ids. */
  ghost predicate IndexedBy(prefixes: map<u64, string>, index: Table) {
    && (forall id :: id in prefixes ==> Keyed(prefixes[id], id) in index)
    && (forall k :: k in index ==> TailId(k) in prefixes && k == Keyed(prefixes[TailId(k)], TailId(k)))
  }

  function Sources(edges: map<u64, Edge>): map<u64, string> {
    map id | id in edges :: ToKey(edges[id].source)
  }

  function Targets(edges: map<u64, Edge>): map<u64, string> {
    map id | id in edges :: ToKey(edges[id].target)
  }

  function Labelled(labels: map<u64, string>): map<u64, string> {
    map id | id in labels && labels[id] != "" :: labels[id]
  }

  /** A live edge's record is what it was created with; a deleted edge has an empty record. */
  ghost predicate RecordsInv(edges: map<u64, Edge>, deleted: set<u64>, records: Table, next: u64) {
    && deleted <= edges.Keys
    && (forall id :: id in edges ==>
          && 1 <= id < next && 20 + |edges[id].lbl| < TWO32 && ToKey(id) in records
          && records[ToKey(id)] == if id in deleted then "" else EncodeEdge(edges[id]))
    && (forall k :: k in records ==> |k| == 8 && k == ToKey(FromKey(k)) && FromKey(k) in edges)
  }

  ghost predicate Inv(stod: Stod, w: World) {
    && IdsInv(w.db.ids) && w.labels.Keys !! w.edges.Keys
    && NodesInv(w.labels, w.deletedNodes, w.db.nodes, w.db.ids.next)
    && IndexInv(stod, w.labels, w.deletedNodes, w.db.nodes, w.db.propIndex)
    && RecordsInv(w.edges, w.deletedEdges, w.db.edges, w.db.ids.next)
    && IndexedBy(Sources(w.edges), w.db.outIndex)
    && IndexedBy(Targets(w.edges), w.db.inIndex)
    && IndexedBy(Labelled(w.labels), w.db.labelIndex)
  }

  // ---- ids ----

  lemma AllocateKeepsIds(s: Ids)
    requires IdsInv(s) && IdsLeft(s)
    ensures IdsInv(Allocate(s)) && Allocate(s).next == s.next + 1
  {
  }

  lemma RecoverKeepsIds(s: Ids)
    requires IdsInv(s)
    ensures IdsInv(Recover(s)) && s.next <= Recover(s).next <= s.next + SEQUENCE_BATCH_SIZE - 1
  {
  }

  // ---- edge records ----

  lemma {:induction false} LittleEndianRoundTrip(v: nat, k: nat)
    requires v < Pow256(k)
    ensures FromLittleEndian(LittleEndian(v, k)) == v
  {
    if k > 0 {
      LittleEndianRoundTrip(v / 256, k - 1);
      assert LittleEndian(v, k)[1..] == LittleEndian(v / 256, k - 1);
    }
  }

  /** get_edge returns what create_edge stored. */
  lemma DecodeEncodeEdge(e: Edge)
    requires 20 + |e.lbl| < TWO32
    ensures DecodeEdge(EncodeEdge(e)) == Some(e)
  {
    hide ToKey, FromKey, LittleEndian, FromLittleEndian;
    assert Pow256(4) == TWO32;
    LittleEndianRoundTrip(|e.lbl|, 4);
    RecordParts(ToKey(e.source), ToKey(e.target), LittleEndian(|e.lbl|, 4), e.lbl, e.properties);
  }

  lemma RecordParts(a: string, b: string, c: string, d: string, e: string)
    requires |a| == |b| == 8 && |c| == 4
    ensures var v := a + b + c + d + e;
      && |v| >= 20 + |d| && v[..8] == a && v[8..16] == b && v[16..20] == c
      && v[20..20 + |d|] == d && v[20 + |d|..] == e
  {
  }

  lemma EdgeIs(stod: Stod, w: World, id: u64)
    requires Inv(stod, w)
    ensures GetEdge(w.db, id)
         == if id in w.edges && id !in w.deletedEdges then Some(w.edges[id]) else None
  {
    hide NodesInv, IndexInv, IndexedBy, EncodeEdge, DecodeEdge;
    EmptyRecord();
    if ToKey(id) in w.db.edges {
      assert FromKey(ToKey(id)) in w.edges;
      DecodeEncodeEdge(w.edges[id]);
    }
  }

  lemma EmptyRecord()
    ensures DecodeEdge("") == None
  {
  }

  // ---- each step keeps the invariants ----

  lemma NodesKept(labels: map<u64, string>, dead: map<u64, string>, nodes: Table, next: u64, id: u64, text: string)
    requires NodesInv(labels, dead, nodes, next) && id in labels && ValidText(text) && (id in dead ==> text == "")
    ensures NodesInv(labels, dead, nodes[ToKey(id) := text], next)
  {
    hide ValidText, NulFree, ToKey, FromKey, TextOf;
    OthersKeepText(nodes, id, text);
    assert TextOf(nodes[ToKey(id) := text], id) == text by { TextWritten(nodes, id, text); }
  }

  lemma TextWritten(nodes: Table, id: u64, text: string)
    ensures TextOf(nodes[ToKey(id) := text], id) == text
  {
    hide ToKey;
  }

  lemma NodeAdded(labels: map<u64, string>, dead: map<u64, string>, nodes: Table, next: u64, lbl: string, text: string)
    requires NodesInv(labels, dead, nodes, next) && 1 <= next && next + 1 < TWO64
    requires NulFree(lbl) && ValidText(text)
    ensures NodesInv(labels[next := lbl], dead, nodes[ToKey(next) := text], next + 1)
    ensures ToKey(next) !in nodes && next !in labels && next !in dead
  {
    hide ValidText, NulFree;
    assert FromKey(ToKey(next)) == next;
  }

  /** A node's text is replaced and its index entries with it; nobody else is concerned. */
  lemma IndexKept(stod: Stod, labels: map<u64, string>, dead: map<u64, string>, nodes: Table, ix: Table, id: u64,
                  lbl: string, text: string, ix': Table)
    requires IndexInv(stod, labels, dead, nodes, ix) && id !in dead
    requires Reindexed(stod, ix, ix', id, lbl, text) && KeysBuilt(stod, ix')
    ensures IndexInv(stod, labels[id := lbl], dead, nodes[ToKey(id) := text], ix')
  {
    hide Holds, WellPacked, KeysBuilt, Listed, ToKey, FromKey;
    assert forall x :: x != id ==> TextOf(nodes[ToKey(id) := text], x) == TextOf(nodes, x) by { OthersKeepText(nodes, id, text); }
    assert TextOf(nodes[ToKey(id) := text], id) == text;
  }

  lemma OthersKeepText(nodes: Table, id: u64, text: string)
    ensures forall x: u64 :: x != id ==> TextOf(nodes[ToKey(id) := text], x) == TextOf(nodes, x)
  {
    forall x: u64 | x != id ensures ToKey(x) != ToKey(id) { assert FromKey(ToKey(x)) == x && FromKey(ToKey(id)) == id; }
  }

  lemma PlainIsValid()
    ensures ValidText("")
  {
  }

  lemma BuiltIs(stod: Stod, lbl: string, key: string, value: string)
    requires NulFree(lbl) && NulFree(key)
    ensures Built(stod, BuildKey(stod, lbl, key, value))
  {
  }

  lemma {:induction false} AddIdsKeepsBuilt(stod: Stod, ix: Table, ks: seq<string>, id: u64)
    requires KeysBuilt(stod, ix) && forall k :: k in ks ==> Built(stod, k)
    ensures KeysBuilt(stod, AddIds(ix, ks, id))
  {
    hide Built;
    if ks != [] {
      assert ks == ks[..|ks| - 1] + [ks[|ks| - 1]];
      AddIdsKeepsBuilt(stod, ix, ks[..|ks| - 1], id);
    }
  }

  lemma {:induction false} RemoveIdsKeepsBuilt(stod: Stod, ix: Table, ks: seq<string>, id: u64)
    requires KeysBuilt(stod, ix)
    ensures KeysBuilt(stod, RemoveIds(ix, ks, id))
  {
    hide Built;
    if ks != [] { RemoveIdsKeepsBuilt(stod, ix, ks[..|ks| - 1], id); }
  }

  lemma IndexNodeKeepsBuilt(stod: Stod, ix: Table, id: u64, lbl: string, text: string)
    requires KeysBuilt(stod, ix) && NulFree(lbl) && ValidText(text)
    ensures KeysBuilt(stod, IndexNode(stod, ix, id, lbl, text))
  {
    var fs := Json.Parse(text);
    var ks := FieldKeys(stod, lbl, fs);
    forall k | k in ks ensures Built(stod, k) {
      var i :| 0 <= i < |ks| && ks[i] == k;
      BuiltIs(stod, lbl, fs[i].key, fs[i].value);
    }
    AddIdsKeepsBuilt(stod, ix, ks, id);
  }

  lemma DeltaKeepsBuilt(stod: Stod, ix: Table, id: u64, lbl: string, oldText: string, newText: string,
                        removals: seq<string>, additions: seq<string>)
    requires KeysBuilt(stod, ix) && NulFree(lbl) && lbl != "" && ValidText(newText)
    requires DeltaOrders(oldText, newText, removals, additions)
    ensures KeysBuilt(stod, DeltaIndex(stod, ix, id, lbl, oldText, newText, removals, additions))
  {
    hide KeysBuilt, Built, Json.Parse, FirstWins, BuildKey;
    var o, n := FirstWins(Json.Parse(oldText)), FirstWins(Json.Parse(newText));
    RemoveIdsKeepsBuilt(stod, ix, KeysInOrder(stod, lbl, o, removals), id);
    HoldsIsMapEntry(stod, lbl, newText);
    var ks := KeysInOrder(stod, lbl, n, additions);
    forall k | k in ks ensures Built(stod, k) {
      var i :| 0 <= i < |ks| && ks[i] == k;
      assert additions[i] in n;
      BuiltIs(stod, lbl, additions[i], n[additions[i]]);
    }
    AddIdsKeepsBuilt(stod, RemoveIds(ix, KeysInOrder(stod, lbl, o, removals), id), ks, id);
  }

  lemma CreateNodeKeeps(stod: Stod, w: World, op: Op)
    requires Inv(stod, w) && op.CreateNodeOp? && Enabled(stod, w, op)
    ensures Inv(stod, Step(stod, w, op))
  {
    hide NodesInv, IndexInv, RecordsInv, IndexedBy, IdsInv, ValidText, NulFree, IndexNode, Labelled, ToKey, FromKey;
    var id, next := w.db.ids.next, w.db.ids.next + 1;
    AllocateKeepsIds(w.db.ids);
    IdsArePositive(w.db.ids);
    NodeAdded(w.labels, w.deletedNodes, w.db.nodes, id, op.lbl, op.text);
    RecordsLater(w.edges, w.deletedEdges, w.db.edges, id, next);
    NodeIndexed(stod, w, op.lbl, op.text);
    NoSuchEdge(w.edges, w.deletedEdges, w.db.edges, id);
    LabelAdded(w, id, op.lbl);
  }

  lemma LabelAdded(w: World, id: u64, lbl: string)
    requires IndexedBy(Labelled(w.labels), w.db.labelIndex) && id !in w.labels
    ensures IndexedBy(Labelled(w.labels[id := lbl]),
                      if lbl == "" then w.db.labelIndex else PutNew(w.db.labelIndex, lbl + ToKey(id), ""))
  {
    hide IndexedBy, ToKey;
    LabelledWith(w.labels, id, lbl);
    assert id !in Labelled(w.labels);
    IndexedAdd(Labelled(w.labels), w.db.labelIndex, id, lbl, "");
  }

  lemma LabelledWith(labels: map<u64, string>, id: u64, lbl: string)
    requires id !in labels
    ensures Labelled(labels[id := lbl]) == if lbl == "" then Labelled(labels) else Labelled(labels)[id := lbl]
  {
  }

  lemma NotYetCreated(labels: map<u64, string>, dead: map<u64, string>, nodes: Table, next: u64)
    requires NodesInv(labels, dead, nodes, next)
    ensures next !in labels && next !in dead
  {
    hide ValidText, NulFree;
  }

  lemma NoSuchEdge(edges: map<u64, Edge>, deleted: set<u64>, records: Table, next: u64)
    requires RecordsInv(edges, deleted, records, next)
    ensures next !in edges
  {
    hide EncodeEdge;
  }

  /** A new id enters an index, or an old one keeps its key. */
  lemma IndexedAdd(prefixes: map<u64, string>, index: Table, id: u64, p: string, v: string)
    requires IndexedBy(prefixes, index) && (id in prefixes ==> prefixes[id] == p)
    ensures IndexedBy(prefixes[id := p], PutNew(index, p + ToKey(id), v))
    ensures IndexedBy(prefixes[id := p], index[p + ToKey(id) := v])
  {
    hide TailId;
    assert Keyed(p, id) == p + ToKey(id);
    hide Keyed;
  }

  lemma IdsArePositive(s: Ids)
    requires IdsInv(s)
    ensures 1 <= s.next
  {
  }

  lemma RecordsLater(edges: map<u64, Edge>, deleted: set<u64>, records: Table, next: u64, next': u64)
    requires RecordsInv(edges, deleted, records, next) && next <= next'
    ensures RecordsInv(edges, deleted, records, next')
  {
    hide EncodeEdge;
  }

  lemma NodesLater(labels: map<u64, string>, dead: map<u64, string>, nodes: Table, next: u64, next': u64)
    requires NodesInv(labels, dead, nodes, next) && next <= next'
    ensures NodesInv(labels, dead, nodes, next')
  {
    hide ValidText, NulFree;
  }

  lemma NodeIndexed(stod: Stod, w: World, lbl: string, text: string)
    requires Inv(stod, w) && NulFree(lbl) && ValidText(text)
    ensures var id := w.db.ids.next;
      IndexInv(stod, w.labels[id := lbl], w.deletedNodes, w.db.nodes[ToKey(id) := text],
               if lbl == "" || Plain(text) then w.db.propIndex
               else IndexNode(stod, w.db.propIndex, id, lbl, text))
  {
    hide ValidText, NulFree, Holds, RecordsInv, IndexedBy, KeysBuilt, IndexNode, Listed, WellPacked, NodesInv, ToKey;
    var id, ix := w.db.ids.next, w.db.propIndex;
    NotYetCreated(w.labels, w.deletedNodes, w.db.nodes, id);
    assert forall k :: id !in Listed(ix, k);
    IndexNodeEffect(stod, ix, id, lbl, text);
    IndexNodeKeepsBuilt(stod, ix, id, lbl, text);
    if lbl == "" || Plain(text) {
      assert Reindexed(stod, ix, ix, id, lbl, text) by {
        forall k ensures !Holds(stod, lbl, text, k) { NothingHeld(stod, lbl, text, k); }
      }
      IndexKept(stod, w.labels, w.deletedNodes, w.db.nodes, ix, id, lbl, text, ix);
    } else {
      IndexKept(stod, w.labels, w.deletedNodes, w.db.nodes, ix, id, lbl, text, IndexNode(stod, ix, id, lbl, text));
    }
  }

  lemma NothingHeld(stod: Stod, lbl: string, text: string, k: string)
    requires lbl == "" || Plain(text)
    ensures !Holds(stod, lbl, text, k)
  {
    if Plain(text) { PlainHoldsNothing(stod, lbl, text, k); }
  }

  /** What is listed for a node before an update. */
  lemma ListedBefore(stod: Stod, w: World, id: u64)
    requires Inv(stod, w) && Kept(w, id)
    ensures forall k :: id in Listed(w.db.propIndex, k) <==> Holds(stod, w.labels[id], NodeText(w.db, id), k)
    ensures NulFree(w.labels[id]) && ValidText(NodeText(w.db, id))
  {
    hide RecordsInv, IndexedBy, IdsInv, ValidText, NulFree, KeysBuilt, Holds, WellPacked, Listed, ToKey, FromKey;
  }

  /** An update of a node changes what that node is listed under, to what its new text holds. */
  lemma UpdateReindexes(stod: Stod, w: World, op: Op)
    requires Inv(stod, w) && op.UpdateNodeOp? && Enabled(stod, w, op) && Kept(w, op.id)
    ensures Reindexed(stod, w.db.propIndex, Step(stod, w, op).db.propIndex, op.id, w.labels[op.id], op.text)
    ensures KeysBuilt(stod, Step(stod, w, op).db.propIndex)
  {
    hide NodesInv, RecordsInv, IndexedBy, IdsInv, ValidText, NulFree, KeysBuilt, Holds, IndexNode, DeltaIndex, WellPacked,
      Listed, ToKey, FromKey;
    var id, lbl, text, ix := op.id, w.labels[op.id], op.text, w.db.propIndex;
    var oldText := NodeText(w.db, id);
    ListedBefore(stod, w, id);
    if lbl == "" {
      forall k ensures !Holds(stod, lbl, text, k) && !Holds(stod, lbl, oldText, k) {
        NothingHeld(stod, lbl, text, k);
        NothingHeld(stod, lbl, oldText, k);
      }
    } else if !Plain(oldText) {
      DeltaEffect(stod, ix, id, lbl, oldText, text, op.removals, op.additions);
      DeltaKeepsBuilt(stod, ix, id, lbl, oldText, text, op.removals, op.additions);
    } else {
      forall k ensures !Holds(stod, lbl, oldText, k) { NothingHeld(stod, lbl, oldText, k); }
      IndexNodeEffect(stod, ix, id, lbl, text);
      IndexNodeKeepsBuilt(stod, ix, id, lbl, text);
      if Plain(text) {
        forall k ensures !Holds(stod, lbl, text, k) { NothingHeld(stod, lbl, text, k); }
      }
    }
  }

  /** The empty text of a deleted node written again. */
  lemma DeletedStays(stod: Stod, w: World, id: u64)
    requires Inv(stod, w) && id in w.deletedNodes
    ensures id in w.labels && NodeText(w.db, id) == "" && w.db.nodes[ToKey(id) := ""] == w.db.nodes
  {
    hide RecordsInv, IndexedBy, IdsInv, ValidText, NulFree, IndexInv, FromKey;
  }

  lemma UpdateNodeKeeps(stod: Stod, w: World, op: Op)
    requires Inv(stod, w) && op.UpdateNodeOp? && Enabled(stod, w, op)
    ensures Inv(stod, Step(stod, w, op))
  {
    hide RecordsInv, IndexedBy, IdsInv, NodesInv, IndexInv, Reindexed, KeysBuilt, ToKey, FromKey, ValidText, DeltaOrders,
      DeltaIndex, IndexNode;
    var id, lbl, ix := op.id, w.labels[op.id], w.db.propIndex;
    if id in w.deletedNodes {
      DeletedStays(stod, w, id);
    } else {
      UpdateReindexes(stod, w, op);
      NodesKept(w.labels, w.deletedNodes, w.db.nodes, w.db.ids.next, id, op.text);
      IndexKept(stod, w.labels, w.deletedNodes, w.db.nodes, ix, id, lbl, op.text, Step(stod, w, op).db.propIndex);
      assert w.labels[id := lbl] == w.labels;
    }
  }

  /** Writing a node's text alone, as SET does for a variable bound without a label, keeps the invariant
      exactly when the old and the new text are indexed under the same keys. */
  lemma PlainUpdateKeepsInvIff(stod: Stod, w: World, id: u64, text: string)
    requires Inv(stod, w) && Kept(w, id) && ValidText(text)
    ensures Inv(stod, w.(db := UpdateNode(w.db, id, text)))
       <==> SameHeld(stod, w.labels[id], NodeText(w.db, id), text)
  {
    hide RecordsInv, IndexedBy, IdsInv, NodesInv, KeysBuilt, Holds, WellPacked, Listed, ValidText, ToKey, FromKey;
    ListedBefore(stod, w, id);
    NodesKept(w.labels, w.deletedNodes, w.db.nodes, w.db.ids.next, id, text);
    var w1 := w.(db := UpdateNode(w.db, id, text));
    OthersKeepText(w.db.nodes, id, text);
    assert NodeText(w1.db, id) == text;
    if Inv(stod, w1) { ListedBefore(stod, w1, id); }
  }

  lemma PlainUpdateKeeps(stod: Stod, w: World, op: Op)
    requires Inv(stod, w) && op.PlainUpdateOp? && Enabled(stod, w, op)
    ensures Inv(stod, Step(stod, w, op))
  {
    hide Inv, SameHeld, ValidText;
    if op.id in w.deletedNodes {
      DeletedStays(stod, w, op.id);
    } else {
      PlainUpdateKeepsInvIff(stod, w, op.id, op.text);
    }
  }

  lemma DeleteNodeKeeps(stod: Stod, w: World, op: Op)
    requires Inv(stod, w) && op.DeleteNodeOp? && Enabled(stod, w, op)
    ensures Inv(stod, Step(stod, w, op))
  {
    hide RecordsInv, IndexedBy, IdsInv, NodesInv, IndexInv, ToKey, FromKey, ValidText, Buried;
    var id, lbl := op.id, w.labels[op.id];
    NodeBuried(stod, w, id);
    if lbl != "" {
      IndexedAdd(Labelled(w.labels), w.db.labelIndex, id, lbl, "");
      assert Labelled(w.labels)[id := lbl] == Labelled(w.labels);
    }
  }

  lemma NodeBuried(stod: Stod, w: World, id: u64)
    requires Inv(stod, w) && id in w.labels
    ensures NodesInv(w.labels, Buried(w, id), w.db.nodes[ToKey(id) := ""], w.db.ids.next)
    ensures IndexInv(stod, w.labels, Buried(w, id), w.db.nodes[ToKey(id) := ""], w.db.propIndex)
  {
    hide RecordsInv, IndexedBy, IdsInv, ValidText, NulFree, Holds, WellPacked, KeysBuilt, Listed, NodesInv, LastOf, Buried,
      ToKey, FromKey;
    PlainIsValid();
    NodesKept(w.labels, w.deletedNodes, w.db.nodes, w.db.ids.next, id, "");
    BuriedKeepsNodes(w, id);
    BuriedKeepsTexts(w, id);
    SameTextsIndexed(stod, w.labels, w.deletedNodes, w.db.nodes, Buried(w, id), w.db.nodes[ToKey(id) := ""], w.db.propIndex);
  }

  lemma SameTextsIndexed(stod: Stod, labels: map<u64, string>, dead: map<u64, string>, nodes: Table,
                         dead': map<u64, string>, nodes': Table, ix: Table)
    requires IndexInv(stod, labels, dead, nodes, ix) && forall x: u64 :: LastOf(dead', nodes', x) == LastOf(dead, nodes, x)
    ensures IndexInv(stod, labels, dead', nodes', ix)
  {
    hide WellPacked, KeysBuilt, Listed, Holds, LastOf;
  }

  lemma BuriedKeepsNodes(w: World, id: u64)
    requires var d := w.db;
      && NodesInv(w.labels, w.deletedNodes, d.nodes, d.ids.next)
      && NodesInv(w.labels, w.deletedNodes, d.nodes[ToKey(id) := ""], d.ids.next) && id in w.labels
    ensures NodesInv(w.labels, Buried(w, id), w.db.nodes[ToKey(id) := ""], w.db.ids.next)
  {
    hide ValidText, NulFree, ToKey, FromKey, TextOf;
    StoredText(w.db, id);
    TextWritten(w.db.nodes, id, "");
  }

  lemma StoredText(d: Db, id: u64)
    requires ToKey(id) in d.nodes
    ensures NodeText(d, id) == d.nodes[ToKey(id)]
  {
    hide ToKey;
  }

  /** Deleting changes nothing about the text the index goes by. */
  lemma BuriedKeepsTexts(w: World, id: u64)
    ensures forall x: u64 :: LastOf(Buried(w, id), w.db.nodes[ToKey(id) := ""], x) == LastOf(w.deletedNodes, w.db.nodes, x)
  {
    hide ToKey, FromKey, TextOf;
    OthersKeepText(w.db.nodes, id, "");
  }

  lemma CreateEdgeKeeps(stod: Stod, w: World, op: Op)
    requires Inv(stod, w) && op.CreateEdgeOp? && Enabled(stod, w, op)
    ensures Inv(stod, Step(stod, w, op))
  {
    hide NodesInv, IndexInv, IndexedBy, RecordsInv, EncodeEdge, ToKey, FromKey, IdsInv;
    var id, e := w.db.ids.next, op.edge;
    AllocateKeepsIds(w.db.ids);
    IdsArePositive(w.db.ids);
    NotYetCreated(w.labels, w.deletedNodes, w.db.nodes, id);
    NodesLater(w.labels, w.deletedNodes, w.db.nodes, id, id + 1);
    RecordAdded(w.edges, w.deletedEdges, w.db.edges, id, e);
    IndexedAdd(Sources(w.edges), w.db.outIndex, id, ToKey(e.source), ToKey(e.target));
    IndexedAdd(Targets(w.edges), w.db.inIndex, id, ToKey(e.target), ToKey(e.source));
    EndsWith(w.edges, id, e);
  }

  lemma EndsWith(edges: map<u64, Edge>, id: u64, e: Edge)
    ensures Sources(edges[id := e]) == Sources(edges)[id := ToKey(e.source)]
    ensures Targets(edges[id := e]) == Targets(edges)[id := ToKey(e.target)]
  {
    hide ToKey;
  }

  lemma RecordAdded(edges: map<u64, Edge>, deleted: set<u64>, records: Table, id: u64, e: Edge)
    requires RecordsInv(edges, deleted, records, id)
    requires 1 <= id && id + 1 < TWO64 && 20 + |e.lbl| < TWO32
    ensures ToKey(id) !in records && id !in edges
    ensures RecordsInv(edges[id := e], deleted, records[ToKey(id) := EncodeEdge(e)], id + 1)
  {
    hide EncodeEdge;
    assert FromKey(ToKey(id)) == id;
  }

  lemma RecordDeleted(edges: map<u64, Edge>, deleted: set<u64>, records: Table, next: u64, id: u64)
    requires RecordsInv(edges, deleted, records, next) && id in edges
    ensures RecordsInv(edges, deleted + {id}, records[ToKey(id) := ""], next)
  {
    hide EncodeEdge;
  }

  lemma DeleteEdgeKeeps(stod: Stod, w: World, op: Op)
    requires Inv(stod, w) && op.DeleteEdgeOp?
    ensures Inv(stod, Step(stod, w, op))
  {
    hide NodesInv, IndexInv, IndexedBy, RecordsInv, EncodeEdge, GetEdge, Sources, Targets, ToKey;
    var id := op.edgeId;
    EdgeIs(stod, w, id);
    if GetEdge(w.db, id).Some? {
      RecordDeleted(w.edges, w.deletedEdges, w.db.edges, w.db.ids.next, id);
      EndsStay(w.edges, w.db, id);
    } else if id in w.edges {
      assert w.deletedEdges + {id} == w.deletedEdges;
    }
  }

  lemma EndsStay(edges: map<u64, Edge>, d: Db, id: u64)
    requires id in edges && IndexedBy(Sources(edges), d.outIndex) && IndexedBy(Targets(edges), d.inIndex)
    ensures IndexedBy(Sources(edges), d.outIndex[ToKey(edges[id].source) + ToKey(id) := ""])
    ensures IndexedBy(Targets(edges), d.inIndex[ToKey(edges[id].target) + ToKey(id) := ""])
  {
    hide IndexedBy, ToKey;
    var e := edges[id];
    IndexedAdd(Sources(edges), d.outIndex, id, ToKey(e.source), "");
    IndexedAdd(Targets(edges), d.inIndex, id, ToKey(e.target), "");
    EndsWith(edges, id, e);
    assert edges[id := e] == edges;
  }

  lemma StepKeepsInv(stod: Stod, w: World, op: Op)
    requires Inv(stod, w) && Enabled(stod, w, op)
    ensures Inv(stod, Step(stod, w, op))
  {
    match op {
      case CreateNodeOp(_, _) => CreateNodeKeeps(stod, w, op);
      case UpdateNodeOp(_, _, _, _) => UpdateNodeKeeps(stod, w, op);
      case PlainUpdateOp(_, _) => PlainUpdateKeeps(stod, w, op);
      case DeleteNodeOp(_, _) => DeleteNodeKeeps(stod, w, op);
      case CreateEdgeOp(_) => CreateEdgeKeeps(stod, w, op);
      case DeleteEdgeOp(_) => DeleteEdgeKeeps(stod, w, op);
      case RestartOp =>
        hide NodesInv, IndexInv, RecordsInv, IndexedBy;
        RecoverKeepsIds(w.db.ids);
        NodesLater(w.labels, w.deletedNodes, w.db.nodes, w.db.ids.next, Recover(w.db.ids).next);
        RecordsLater(w.edges, w.deletedEdges, w.db.edges, w.db.ids.next, Recover(w.db.ids).next);
    }
  }

  lemma StartInv(stod: Stod)
    ensures Inv(stod, START)
  {
    hide IndexInv, NodesInv, RecordsInv, IndexedBy;
    assert Sources(START.edges) == map[] && Targets(START.edges) == map[] && Labelled(START.labels) == map[];
    EmptyIndexes(stod);
  }

  lemma EmptyIndexes(stod: Stod)
    ensures IndexInv(stod, map[], map[], map[], map[]) && NodesInv(map[], map[], map[], 1)
    ensures RecordsInv(map[], {}, map[], 1) && IndexedBy(map[], map[])
  {
    hide Holds, Built, ValidText, NulFree;
  }

  /** The whole of it: no run of storage operations leaves the invariants. */
  lemma {:induction false} RunKeepsInv(stod: Stod, w: World, ops: seq<Op>, w': World)
    requires Inv(stod, w) && RunsTo(stod, w, ops, w')
    ensures Inv(stod, w')
    decreases |ops|
  {
    hide Inv, Enabled, Step;
    if ops != [] {
      StepKeepsInv(stod, w, ops[0]);
      RunKeepsInv(stod, Step(stod, w, ops[0]), ops[1..], w');
    }
  }
}
