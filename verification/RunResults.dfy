/** What every run of storage operations guarantees to a caller of the queries. */
module RunResults {
  import opened Bytes
  import opened Json
  import opened Store
  import opened PropertyIndex
  import opened Runs

  // ---- the property index ----

  /** A property of the text has this key and a value with the same canonical form. */
  ghost predicate HasCanon(stod: Stod, text: string, key: string, value: string) {
    exists f :: f in Parse(text) && f.key == key && Canon(stod, f.value) == Canon(stod, value)
  }

  lemma HoldsIsCanon(stod: Stod, lbl: string, text: string, lbl': string, key: string, value: string)
    requires NulFree(lbl) && ValidText(text) && NulFree(lbl') && NulFree(key) && lbl' != ""
    ensures Holds(stod, lbl, text, BuildKey(stod, lbl', key, value))
       <==> lbl == lbl' && HasCanon(stod, text, key, value)
  {
    hide NulFree, Parse, Canon;
    var k := BuildKey(stod, lbl', key, value);
    if Holds(stod, lbl, text, k) {
      var f :| f in Parse(text) && BuildKey(stod, lbl, f.key, f.value) == k;
      var i :| 0 <= i < |Parse(text)| && Parse(text)[i] == f;
      BuildKeyDecodes(stod, lbl, f.key, f.value, lbl', key, value);
    }
    if lbl == lbl' && HasCanon(stod, text, key, value) {
      var f :| f in Parse(text) && f.key == key && Canon(stod, f.value) == Canon(stod, value);
      assert BuildKey(stod, lbl, f.key, f.value) == k;
    }
  }

  /** The list for a label, key and value is duplicate-free and has exactly the nodes of the label
      whose text holds such a property, or held it when they were deleted. */
  ghost predicate LookupAgrees(stod: Stod, w: World, lbl: string, key: string, value: string) {
    var found := NodesByProperty(stod, w.db, lbl, key, value);
    && Distinct(found)
    && (forall id :: id in found <==>
          id in w.labels && w.labels[id] == lbl && HasCanon(stod, LastText(w, id), key, value))
  }

  lemma LookupAnswers(stod: Stod, w: World, lbl: string, key: string, value: string)
    requires Inv(stod, w) && NulFree(lbl) && NulFree(key) && lbl != ""
    ensures LookupAgrees(stod, w, lbl, key, value)
  {
    hide Inv, NulFree, BuildKey, HasCanon, Parse, ToKey, FromKey, ValidText, Unpack, LastText;
    ListIs(stod, w, BuildKey(stod, lbl, key, value));
    assert NodesByProperty(stod, w.db, lbl, key, value) == Listed(w.db.propIndex, BuildKey(stod, lbl, key, value));
    hide NodesByProperty, Holds, Listed;
    forall id | id in w.labels
      ensures Holds(stod, w.labels[id], LastText(w, id), BuildKey(stod, lbl, key, value))
         <==> w.labels[id] == lbl && HasCanon(stod, LastText(w, id), key, value)
    {
      LastIsValid(stod, w, id);
      HoldsIsCanon(stod, w.labels[id], LastText(w, id), lbl, key, value);
    }
  }

  lemma ListIs(stod: Stod, w: World, k: string)
    requires Inv(stod, w)
    ensures Distinct(Listed(w.db.propIndex, k))
    ensures forall id :: id in Listed(w.db.propIndex, k) <==> id in w.labels && Holds(stod, w.labels[id], LastText(w, id), k)
  {
    hide NodesInv, RecordsInv, IndexedBy, IdsInv, Holds, KeysBuilt, Unpack, Pack, ToKey, FromKey, LastOf;
  }

  lemma LastIsValid(stod: Stod, w: World, id: u64)
    requires Inv(stod, w) && id in w.labels
    ensures NulFree(w.labels[id]) && ValidText(LastText(w, id))
    ensures id in w.deletedNodes ==> NodeText(w.db, id) == ""
    ensures Kept(w, id) ==> LastText(w, id) == NodeText(w.db, id)
    ensures Live(w, id) ==> Kept(w, id)
  {
    hide RecordsInv, IndexedBy, IdsInv, IndexInv, NulFree, ValidText, ToKey, FromKey;
  }

  /** The property index agrees with the nodes after any run: of the nodes that were not deleted exactly
      those of the label with such a property are listed, and of the deleted ones exactly those that had
      it when they were deleted. */
  lemma PropertyIndexAgrees(stod: Stod, ops: seq<Op>, w: World, lbl: string, key: string, value: string)
    requires RunsTo(stod, START, ops, w) && NulFree(lbl) && NulFree(key) && lbl != ""
    ensures LookupAgrees(stod, w, lbl, key, value)
    ensures var found := NodesByProperty(stod, w.db, lbl, key, value);
      && (forall id :: Kept(w, id) ==>
            (id in found <==> w.labels[id] == lbl && HasCanon(stod, NodeText(w.db, id), key, value)))
      && (forall id :: id in w.deletedNodes ==>
            (id in found <==> id in w.labels && w.labels[id] == lbl && HasCanon(stod, w.deletedNodes[id], key, value)))
  {
    hide Inv, RunsTo, LookupAgrees;
    StartInv(stod);
    RunKeepsInv(stod, START, ops, w);
    LookupAnswers(stod, w, lbl, key, value);
    KeptOrDeleted(stod, w, lbl, key, value);
  }

  lemma KeptOrDeleted(stod: Stod, w: World, lbl: string, key: string, value: string)
    requires LookupAgrees(stod, w, lbl, key, value)
    ensures var found := NodesByProperty(stod, w.db, lbl, key, value);
      && (forall id :: Kept(w, id) ==>
            (id in found <==> w.labels[id] == lbl && HasCanon(stod, NodeText(w.db, id), key, value)))
      && (forall id :: id in w.deletedNodes ==>
            (id in found <==> id in w.labels && w.labels[id] == lbl && HasCanon(stod, w.deletedNodes[id], key, value)))
  {
    hide HasCanon, NodesByProperty, TextOf, Distinct;
  }

  predicate NothingDeleted(ops: seq<Op>) {
    forall i :: 0 <= i < |ops| ==> !ops[i].DeleteNodeOp?
  }

  lemma {:induction false} NothingBuried(stod: Stod, w: World, ops: seq<Op>, w': World)
    requires RunsTo(stod, w, ops, w') && NothingDeleted(ops)
    ensures w'.deletedNodes == w.deletedNodes
    decreases |ops|
  {
    hide Enabled;
    if ops != [] {
      assert Step(stod, w, ops[0]).deletedNodes == w.deletedNodes by { StepBuries(stod, w, ops[0]); }
      hide Step;
      assert forall i :: 0 <= i < |ops[1..]| ==> ops[1..][i] == ops[i + 1];
      NothingBuried(stod, Step(stod, w, ops[0]), ops[1..], w');
    }
  }

  lemma StepBuries(stod: Stod, w: World, op: Op)
    requires Enabled(stod, w, op) && !op.DeleteNodeOp?
    ensures Step(stod, w, op).deletedNodes == w.deletedNodes
  {
    hide Enabled, CreateNode, CreateEdge, UpdateNodeWithLabel, DeleteEdge;
  }

  /** Without deletes the list is exact. */
  lemma PropertyIndexExact(stod: Stod, ops: seq<Op>, w: World, lbl: string, key: string, value: string)
    requires RunsTo(stod, START, ops, w) && NothingDeleted(ops)
    requires NulFree(lbl) && NulFree(key) && lbl != ""
    ensures var found := NodesByProperty(stod, w.db, lbl, key, value);
      forall id :: id in found <==>
        id in w.labels && w.labels[id] == lbl && HasCanon(stod, NodeText(w.db, id), key, value)
  {
    NothingBuried(stod, START, ops, w);
    PropertyIndexAgrees(stod, ops, w, lbl, key, value);
    hide HasCanon, NodesByProperty, NodeText;
  }

  /** Whatever order the two hash maps are visited in, the same ids are listed under every key. */
  lemma DeltaOrderIsIrrelevant(stod: Stod, w: World, id: u64, text: string,
                               removals: seq<string>, additions: seq<string>,
                               removals': seq<string>, additions': seq<string>)
    requires Inv(stod, w)
    requires Enabled(stod, w, UpdateNodeOp(id, text, removals, additions))
    requires Enabled(stod, w, UpdateNodeOp(id, text, removals', additions'))
    ensures var a := Step(stod, w, UpdateNodeOp(id, text, removals, additions));
            var b := Step(stod, w, UpdateNodeOp(id, text, removals', additions'));
            a.db.nodes == b.db.nodes && forall k, x :: x in Listed(a.db.propIndex, k) <==> x in Listed(b.db.propIndex, k)
  {
    hide Inv, Reindexed, UpdateNodeWithLabel, ToKey, FromKey, DeltaOrders, ValidText, TextOf;
    if id in w.deletedNodes {
      SameEmpty(stod, w, id, removals, additions);
      SameEmpty(stod, w, id, removals', additions');
      return;
    }
    var o, o' := UpdateNodeOp(id, text, removals, additions), UpdateNodeOp(id, text, removals', additions');
    UpdateReindexes(stod, w, o);
    UpdateReindexes(stod, w, o');
    SameReindexed(stod, w.db.propIndex, Step(stod, w, o).db.propIndex, Step(stod, w, o').db.propIndex, id,
                  w.labels[id], text);
    SameNodes(stod, w.db, id, w.labels[id], text, removals, additions);
    SameNodes(stod, w.db, id, w.labels[id], text, removals', additions');
  }

  /** A deleted node's update is one of an empty text by an empty text. */
  lemma SameEmpty(stod: Stod, w: World, id: u64, removals: seq<string>, additions: seq<string>)
    requires Inv(stod, w) && id in w.deletedNodes && Enabled(stod, w, UpdateNodeOp(id, "", removals, additions))
    ensures Step(stod, w, UpdateNodeOp(id, "", removals, additions)).db == w.db
  {
    hide Inv, ToKey, FromKey, DeltaOrders, ValidText, TextOf, DeltaIndex, IndexNode;
    DeletedStays(stod, w, id);
  }

  lemma SameReindexed(stod: Stod, ix: Table, a: Table, b: Table, id: u64, lbl: string, text: string)
    requires Reindexed(stod, ix, a, id, lbl, text) && Reindexed(stod, ix, b, id, lbl, text)
    ensures forall k, x :: x in Listed(a, k) <==> x in Listed(b, k)
  {
    hide Listed, WellPacked, Holds;
  }

  lemma SameNodes(stod: Stod, d: Db, id: u64, lbl: string, text: string, removals: seq<string>, additions: seq<string>)
    requires DeltaOrders(NodeText(d, id), text, removals, additions)
    ensures UpdateNodeWithLabel(stod, d, id, lbl, text, removals, additions).nodes == d.nodes[ToKey(id) := text]
  {
    hide DeltaOrders, DeltaIndex, IndexNode, ToKey;
  }

  // ---- scans of the adjacency and label indexes ----

  predicate Increasing(ids: seq<u64>) {
    forall i, j :: 0 <= i < j < |ids| ==> ids[i] < ids[j]
  }

  lemma {:induction false} IdsBehindAll(ks: seq<string>, p: string)
    requires forall i :: 0 <= i < |ks| ==> ks[i] == Keyed(p, TailId(ks[i]))
    ensures var ids := IdsBehind(ks, |p|);
      |ids| == |ks| && forall i :: 0 <= i < |ks| ==> ids[i] == TailId(ks[i])
  {
    hide Keyed, TailId, FromKey;
    if ks != [] {
      IdsBehindAll(ks[..|ks| - 1], p);
      KeyedTail(p, ks[|ks| - 1]);
    }
  }

  lemma KeyedTail(p: string, k: string)
    requires k == Keyed(p, TailId(k))
    ensures |k| == |p| + 8 && FromKey(k[|p|..|p| + 8]) == TailId(k)
  {
    hide FromKey, ToKey;
    assert k == p + ToKey(TailId(k)) && k[|p|..|p| + 8] == ToKey(TailId(k));
  }

  /** An ascending listing of the keys that are p followed by an id lists those ids in ascending order. */
  lemma ListingOf(prefixes: map<u64, string>, index: Table, p: string, ks: seq<string>)
    requires IndexedBy(prefixes, index) && StrictlyAscending(ks)
    requires forall k :: k in ks ==> k in index && prefixes[TailId(k)] == p
    requires forall x :: x in prefixes && prefixes[x] == p ==> Keyed(p, x) in ks
    ensures var ids := IdsBehind(ks, |p|);
      && |ids| == |ks| && (forall i :: 0 <= i < |ids| ==> ids[i] == TailId(ks[i]))
      && Increasing(ids)
      && (forall x :: x in ids <==> x in prefixes && prefixes[x] == p)
  {
    hide IdsBehind, TailId, Keyed;
    forall i | 0 <= i < |ks| ensures ks[i] == Keyed(p, TailId(ks[i])) { assert ks[i] in ks; }
    IdsBehindAll(ks, p);
    var ids := IdsBehind(ks, |p|);
    IncreasingIds(ks, ids, p);
    forall x ensures x in ids <==> x in prefixes && prefixes[x] == p {
      if x in ids {
        var i :| 0 <= i < |ids| && ids[i] == x;
        assert ks[i] in ks;
      }
      if x in prefixes && prefixes[x] == p {
        var i :| 0 <= i < |ks| && ks[i] == Keyed(p, x);
        assert ids[i] == x;
      }
    }
  }

  /** When every key that starts with p is p followed by an id, a scan lists exactly those ids. */
  lemma ScanOfIndexed(prefixes: map<u64, string>, index: Table, p: string)
    requires IndexedBy(prefixes, index)
    requires forall k :: k in index && StartsWith(k, p) ==> prefixes[TailId(k)] == p
    ensures var ids := IdsBehind(Prefixed(index, p), |p|);
      Increasing(ids) && forall x :: x in ids <==> x in prefixes && prefixes[x] == p
  {
    hide IdsBehind, TailId, Keyed;
    forall x | x in prefixes && prefixes[x] == p ensures Keyed(p, x) in Prefixed(index, p) {
      KeyedIs(p, x);
      assert StartsWith(Keyed(p, x), p);
    }
    ListingOf(prefixes, index, p, Prefixed(index, p));
  }

  lemma KeyedIs(p: string, id: u64)
    ensures Keyed(p, id) == p + ToKey(id)
  {
  }

  lemma IncreasingIds(ks: seq<string>, ids: seq<u64>, p: string)
    requires StrictlyAscending(ks) && |ids| == |ks|
    requires forall i :: 0 <= i < |ks| ==> ks[i] == Keyed(p, ids[i])
    ensures Increasing(ids)
  {
    hide TailId, ToKey, FromKey;
    forall i, j | 0 <= i < j < |ids| ensures ids[i] < ids[j] {
      assert Less(ks[i], ks[j]);
      KeyedIs(p, ids[i]);
      KeyedIs(p, ids[j]);
      LessCommonPrefix(p, ToKey(ids[i]), ToKey(ids[j]));
      ToKeyOrder(ids[i], ids[j]);
    }
  }

  lemma KeyedUnder8(p: string, n: u64, id: u64)
    requires |p| == 8 && StartsWith(Keyed(p, id), ToKey(n))
    ensures p == ToKey(n)
  {
    assert Keyed(p, id)[..8] == p;
  }

  /** The adjacency lists after any run: both ascending, both complete, and the ids that no longer
      denote an edge are exactly the deleted ones. */
  lemma AdjacencyAgrees(stod: Stod, ops: seq<Op>, w: World, node: u64)
    requires RunsTo(stod, START, ops, w)
    ensures Increasing(OutgoingEdges(w.db, node)) && Increasing(IncomingEdges(w.db, node))
    ensures forall e :: e in OutgoingEdges(w.db, node) <==> e in w.edges && w.edges[e].source == node
    ensures forall e :: e in IncomingEdges(w.db, node) <==> e in w.edges && w.edges[e].target == node
    ensures forall e :: GetEdge(w.db, e) == if e in w.edges && e !in w.deletedEdges then Some(w.edges[e]) else None
  {
    StartInv(stod);
    RunKeepsInv(stod, START, ops, w);
    AdjacencyOf(stod, w, node);
  }

  lemma AdjacencyOf(stod: Stod, w: World, node: u64)
    requires Inv(stod, w)
    ensures Increasing(OutgoingEdges(w.db, node)) && Increasing(IncomingEdges(w.db, node))
    ensures forall e :: e in OutgoingEdges(w.db, node) <==> e in w.edges && w.edges[e].source == node
    ensures forall e :: e in IncomingEdges(w.db, node) <==> e in w.edges && w.edges[e].target == node
    ensures forall e :: GetEdge(w.db, e) == if e in w.edges && e !in w.deletedEdges then Some(w.edges[e]) else None
  {
    hide NodesInv, IndexInv, RecordsInv, IndexedBy, GetEdge, OutgoingEdges, IncomingEdges, Sources, Targets;
    EndsAre(w, node);
    AdjacencyScan(Sources(w.edges), w.db.outIndex, node);
    AdjacencyScan(Targets(w.edges), w.db.inIndex, node);
    forall e ensures GetEdge(w.db, e) == if e in w.edges && e !in w.deletedEdges then Some(w.edges[e]) else None {
      EdgeIs(stod, w, e);
    }
  }

  /** One of the twin indexes, scanned for a node. */
  lemma AdjacencyScan(owners: map<u64, string>, ix: Table, node: u64)
    requires IndexedBy(owners, ix)
    requires forall e :: e in owners ==> |owners[e]| == 8
    ensures var ids := IdsBehind(Prefixed(ix, ToKey(node)), |ToKey(node)|);
      Increasing(ids) && forall e :: e in ids <==> e in owners && owners[e] == ToKey(node)
  {
    hide IdsBehind, IterateIds, FromKey;
    forall k | k in ix && StartsWith(k, ToKey(node)) ensures owners[TailId(k)] == ToKey(node) {
      KeyedUnder8(owners[TailId(k)], node, TailId(k));
    }
    ScanOfIndexed(owners, ix, ToKey(node));
  }

  lemma EndsAre(w: World, node: u64)
    ensures forall e :: e in Sources(w.edges) ==> |Sources(w.edges)[e]| == 8
    ensures forall e :: e in Targets(w.edges) ==> |Targets(w.edges)[e]| == 8
    ensures forall e :: e in Sources(w.edges) && Sources(w.edges)[e] == ToKey(node) <==> e in w.edges && w.edges[e].source == node
    ensures forall e :: e in Targets(w.edges) && Targets(w.edges)[e] == ToKey(node) <==> e in w.edges && w.edges[e].target == node
    ensures OutgoingEdges(w.db, node) == IdsBehind(Prefixed(w.db.outIndex, ToKey(node)), |ToKey(node)|)
    ensures IncomingEdges(w.db, node) == IdsBehind(Prefixed(w.db.inIndex, ToKey(node)), |ToKey(node)|)
  {
    hide IdsBehind, Prefixed;
    forall e | e in w.edges && ToKey(w.edges[e].source) == ToKey(node) ensures w.edges[e].source == node {
      assert FromKey(ToKey(node)) == node == FromKey(ToKey(w.edges[e].source));
    }
    forall e | e in w.edges && ToKey(w.edges[e].target) == ToKey(node) ensures w.edges[e].target == node {
      assert FromKey(ToKey(node)) == node == FromKey(ToKey(w.edges[e].target));
    }
  }
}
