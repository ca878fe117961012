/** The storage object (storage.cpp). Every method is tied to the function of the same name in
    `Store`, which says what the whole database is afterwards. */
module Storage {
  import opened Bytes
  import opened Json
  import opened SortableDouble
  import opened Store
  import opened PropertyIndex
  import opened Ranges

  class Storage {
    const stod: Stod
    var nodes: Table
    var edges: Table
    var outIndex: Table
    var inIndex: Table
    var labelIndex: Table
    var propIndex: Table
    var nextId: u64
    var sequenceVersion: nat
    var sequenceBatchRemaining: nat
    // the durable sequence of the key-value store
    var durableVersion: nat
    var durableValue: int

    ghost function State(): Db
      reads this
    {
      Db(nodes, edges, outIndex, inIndex, labelIndex, propIndex,
         Ids(nextId, sequenceVersion, sequenceBatchRemaining, durableVersion, durableValue))
    }

    constructor (stod: Stod)
      ensures this.stod == stod && State() == EMPTY
    {
      this.stod := stod;
      nodes, edges, outIndex, inIndex, labelIndex, propIndex := map[], map[], map[], map[], map[], map[];
      nextId, sequenceVersion, sequenceBatchRemaining := 1, 0, 0;
      durableVersion, durableValue := 0, 0;
    }

    /** `init` in a new process: the tables are there, the counters come from the sequence. */
    method Init()
      modifies this
      ensures State() == old(State()).(ids := Store.Recover(old(State()).ids))
    {
      sequenceVersion := durableVersion;
      nextId := (AsUnsigned(durableValue) + 1) % TWO64;
      sequenceBatchRemaining := 0;
    }

    method AllocateId() returns (id: u64)
      modifies this
      ensures id == old(nextId) && State() == old(State()).(ids := Store.Allocate(old(State()).ids))
    {
      id := nextId;
      nextId := (nextId + 1) % TWO64;
      if sequenceBatchRemaining == 0 {
        sequenceVersion := sequenceVersion + 1;
        durableVersion := sequenceVersion;
        durableValue := AsSigned((nextId + SEQUENCE_BATCH_SIZE - 2) % TWO64);
        sequenceBatchRemaining := SEQUENCE_BATCH_SIZE - 1;
      } else {
        sequenceBatchRemaining := sequenceBatchRemaining - 1;
      }
    }

    // ---- nodes ----

    method CreateNode(lbl: string, text: string) returns (ok: bool, id: u64)
      modifies this
      ensures Created(State(), ok, id) == Store.CreateNode(stod, old(State()), lbl, text)
    {
      id := AllocateId();
      var nodeKey := ToKey(id);
      if nodeKey in nodes { return false, id; }
      nodes := nodes[nodeKey := text];
      if lbl != "" {
        labelIndex := PutNew(labelIndex, lbl + nodeKey, "");
        if text != "" && text != "{}" {
          IndexNodeProperties(id, lbl, text);
        }
      }
      return true, id;
    }

    method GetNode(id: u64) returns (found: bool, text: string)
      ensures found == (ToKey(id) in nodes) && text == NodeText(State(), id)
    {
      if ToKey(id) !in nodes { return false, ""; }
      return true, nodes[ToKey(id)];
    }

    method UpdateNode(id: u64, text: string)
      modifies this`nodes
      ensures State() == Store.UpdateNode(old(State()), id, text)
    {
      nodes := nodes[ToKey(id) := text];
    }

    method DeleteNode(id: u64, lbl: string)
      modifies this`nodes, this`labelIndex
      ensures State() == Store.DeleteNode(old(State()), id, lbl)
    {
      if lbl != "" {
        labelIndex := labelIndex[lbl + ToKey(id) := ""];
      }
      nodes := nodes[ToKey(id) := ""];
    }

    method GetNodesBatch(ids: seq<u64>) returns (results: seq<(u64, string)>)
      ensures results == Batch(State(), ids)
    {
      results := [];
      for i := 0 to |ids|
        invariant results == Batch(State(), ids[..i])
      {
        assert ids[..i + 1][..i] == ids[..i];
        if ToKey(ids[i]) in nodes {
          results := results + [(ids[i], nodes[ToKey(ids[i])])];
        }
      }
      assert ids[..|ids|] == ids;
    }

    // ---- property index ----

    /** CREATE, and when the key exists already read the list, append and write it back. */
    method AddToIndex(k: string, id: u64)
      modifies this`propIndex
      ensures propIndex == AddId(old(propIndex), k, id)
    {
      if k !in propIndex {
        propIndex := propIndex[k := ToKey(id)];
      } else {
        var existing := "";
        if k in propIndex { existing := propIndex[k]; }
        propIndex := propIndex[k := existing + ToKey(id)];
      }
    }

    method IndexNodeProperties(id: u64, lbl: string, text: string)
      modifies this`propIndex
      ensures propIndex == IndexNode(stod, old(propIndex), id, lbl, text)
    {
      hide BuildKey, AddId;
      if lbl == "" { return; }
      var props := ParseJsonProperties(text);
      ghost var ks := FieldKeys(stod, lbl, props);
      for i := 0 to |props|
        invariant propIndex == AddIds(old(propIndex), ks[..i], id)
      {
        AddToIndex(BuildKey(stod, lbl, props[i].key, props[i].value), id);
        assert ks[..i + 1][..i] == ks[..i];
      }
      assert ks[..|ks|] == ks;
    }

    method RemovePackedId(packed: string, id: u64) returns (result: string)
      ensures result == RemovePacked(packed, id)
    {
      hide ToKey, RemovePacked;
      result := "";
      var target := ToKey(id);
      assert packed[0..] == packed;
      var i := 0;
      while i + 8 <= |packed|
        invariant 0 <= i <= |packed|
        invariant RemovePacked(packed, id) == result + RemovePacked(packed[i..], id)
      {
        var group := packed[i..i + 8];
        NextGroup(packed, i, id);
        if group != target { result := result + group; }
        i := i + 8;
      }
      NoGroupLeft(packed[i..], id);
    }

    method UnpackIds(packed: string) returns (ids: seq<u64>)
      ensures ids == Unpack(packed)
    {
      hide FromKey, Unpack;
      ids := [];
      var i := 0;
      assert packed[0..] == packed;
      while i + 8 <= |packed|
        invariant 0 <= i <= |packed|
        invariant Unpack(packed) == ids + Unpack(packed[i..])
      {
        NextGroup(packed, i, 0);
        ids := ids + [FromKey(packed[i..i + 8])];
        i := i + 8;
      }
      NoGroupLeft(packed[i..], 0);
    }

    method RemoveFromIndex(k: string, id: u64)
      modifies this`propIndex
      ensures propIndex == RemoveId(old(propIndex), k, id)
    {
      if k in propIndex {
        var updated := RemovePackedId(propIndex[k], id);
        propIndex := propIndex[k := updated];
      }
    }

    /** The two delta loops visit their hash maps in an order nobody chose; it is returned. */
    method UpdateNodeWithLabel(id: u64, lbl: string, text: string)
      returns (ghost removals: seq<string>, ghost additions: seq<string>)
      modifies this`nodes, this`propIndex
      ensures DeltaOrders(NodeText(old(State()), id), text, removals, additions)
      ensures State() == Store.UpdateNodeWithLabel(stod, old(State()), id, lbl, text, removals, additions)
    {
      var found, oldText := GetNode(id);
      removals, additions := SomeOrders(oldText, text);
      if lbl != "" {
        if found && oldText != "" && oldText != "{}" {
          var oldProps := ParseJsonProperties(oldText);
          var newProps := ParseJsonProperties(text);
          var oldMap, newMap := FirstWins(oldProps), FirstWins(newProps);
          removals := RemoveChanged(id, lbl, oldMap, newMap);
          additions := AddChanged(id, lbl, oldMap, newMap);
        } else if text != "" && text != "{}" {
          IndexNodeProperties(id, lbl, text);
        }
      }
      nodes := nodes[ToKey(id) := text];
    }

    method RemoveChanged(id: u64, lbl: string, oldMap: map<string, string>, newMap: map<string, string>)
      returns (ghost order: seq<string>)
      modifies this`propIndex
      ensures VisitsOnce(order, Changed(oldMap, newMap))
      ensures propIndex == RemoveIds(old(propIndex), KeysInOrder(stod, lbl, oldMap, order), id)
    {
      hide BuildKey, VisitsOnce, RemoveIds, AddIds, RemoveId, AddId, KeysInOrder;
      NoVisit(stod, lbl, oldMap, newMap, propIndex, id);
      order := [];
      var todo := oldMap.Keys;
      while todo != {}
        invariant todo <= oldMap.Keys && forall k :: k in order ==> k in oldMap
        invariant VisitsOnce(order, Changed(oldMap, newMap) - todo)
        invariant propIndex == RemoveIds(old(propIndex), KeysInOrder(stod, lbl, oldMap, order), id)
      {
        var key :| key in todo;
        VisitKey(oldMap, newMap, order, todo, key);
        todo := todo - {key};
        if key !in newMap || newMap[key] != oldMap[key] {
          RemoveFromIndex(BuildKey(stod, lbl, key, oldMap[key]), id);
          NextInOrder(stod, lbl, oldMap, order, key);
          IndexNext(old(propIndex), KeysInOrder(stod, lbl, oldMap, order), BuildKey(stod, lbl, key, oldMap[key]), id);
          order := order + [key];
        }
      }
      assert Changed(oldMap, newMap) - todo == Changed(oldMap, newMap);
    }

    method AddChanged(id: u64, lbl: string, oldMap: map<string, string>, newMap: map<string, string>)
      returns (ghost order: seq<string>)
      modifies this`propIndex
      ensures VisitsOnce(order, Changed(newMap, oldMap))
      ensures propIndex == AddIds(old(propIndex), KeysInOrder(stod, lbl, newMap, order), id)
    {
      hide BuildKey, VisitsOnce, RemoveIds, AddIds, RemoveId, AddId, KeysInOrder;
      NoVisit(stod, lbl, newMap, oldMap, propIndex, id);
      order := [];
      var todo := newMap.Keys;
      while todo != {}
        invariant todo <= newMap.Keys && forall k :: k in order ==> k in newMap
        invariant VisitsOnce(order, Changed(newMap, oldMap) - todo)
        invariant propIndex == AddIds(old(propIndex), KeysInOrder(stod, lbl, newMap, order), id)
      {
        var key :| key in todo;
        VisitKey(newMap, oldMap, order, todo, key);
        todo := todo - {key};
        if key !in oldMap || oldMap[key] != newMap[key] {
          AddToIndex(BuildKey(stod, lbl, key, newMap[key]), id);
          NextInOrder(stod, lbl, newMap, order, key);
          IndexNext(old(propIndex), KeysInOrder(stod, lbl, newMap, order), BuildKey(stod, lbl, key, newMap[key]), id);
          order := order + [key];
        }
      }
      assert Changed(newMap, oldMap) - todo == Changed(newMap, oldMap);
    }

    method FindNodesByProperty(lbl: string, key: string, value: string) returns (ids: seq<u64>)
      ensures ids == NodesByProperty(stod, State(), lbl, key, value)
    {
      var k := BuildKey(stod, lbl, key, value);
      if k !in propIndex { return []; }
      ids := UnpackIds(propIndex[k]);
    }

    /** Fails on the empty label. */
    method FindNodesByPropertyRange(lbl: string, key: string, op: string, compareValue: string)
      returns (ok: bool, ids: seq<u64>)
      ensures NodesByRange(stod, State(), lbl, key, op, compareValue) == if ok then Some(ids) else None
    {
      if lbl == "" { return false, []; }
      var prefix := IndexPrefix(lbl, key);
      var compareNum := stod(compareValue);
      if compareNum.Some? && op != "<>" {
        ids := ScanInterval(prefix, op, compareNum.value);
      } else {
        ids := ScanEntries(prefix, op, compareNum, compareValue);
      }
      ok := true;
    }

    /** The interval loop: no comparison per entry, only the prefix check. */
    method ScanInterval(prefix: string, op: string, compareNum: u64) returns (ids: seq<u64>)
      requires op != "<>"
      ensures ids == Collect(propIndex, IntervalKeys(propIndex, prefix, op, compareNum))
    {
      hide Unpack, IntervalKeys;
      ids := [];
      var keys := IntervalKeys(propIndex, prefix, op, compareNum);
      var i := 0;
      while i < |keys|
        invariant 0 <= i <= |keys|
        invariant ids == Collect(propIndex, keys[..i])
      {
        var key := keys[i];
        assert key in keys && keys[..i + 1][..i] == keys[..i];
        KeysSharePrefix(propIndex, prefix, op, compareNum, key);
        if !StartsWith(key, prefix) {
          break;
        }
        var unpacked := UnpackIds(propIndex[key]);
        ids := ids + unpacked;
        i := i + 1;
      }
      assert keys[..|keys|] == keys;
    }

    /** The fallback loop over every entry of the property. */
    method ScanEntries(prefix: string, op: string, compareNum: Option<u64>, compareValue: string)
      returns (ids: seq<u64>)
      ensures ids == LoopResult(propIndex, prefix, op, compareNum, compareValue)
    {
      hide Unpack, EntryMatch, Keep, Collect;
      ids := [];
      var keys := Prefixed(propIndex, prefix);
      ghost var kept := [];
      ghost var f := k => EntryMatch(k, prefix, op, compareNum, compareValue);
      NothingKept(propIndex, f);
      var i := 0;
      while i < |keys|
        invariant 0 <= i <= |keys|
        invariant kept == Keep(keys[..i], f) && forall k :: k in kept ==> k in propIndex
        invariant ids == Collect(propIndex, kept)
      {
        var key := keys[i];
        assert key in keys;
        KeepNext(propIndex, keys, i, f);
        i := i + 1;
        var isMatch := EntryTest(key, prefix, op, compareNum, compareValue);
        if isMatch {
          var unpacked := UnpackIds(propIndex[key]);
          ids := ids + unpacked;
          kept := kept + [key];
        }
      }
      assert keys[..|keys|] == keys;
    }

    /** The comparison of one entry. */
    method EntryTest(key: string, prefix: string, op: string, compareNum: Option<u64>, compareValue: string)
      returns (isMatch: bool)
      requires StartsWith(key, prefix)
      ensures isMatch == EntryMatch(key, prefix, op, compareNum, compareValue)
    {
      hide Decode, CompareDoubles, CompareStrings;
      if |key| <= |prefix| { return false; }
      var typePrefix := key[|prefix|];
      if typePrefix == NUMERIC && |key| >= |prefix| + 1 + 8 {
        var value := Decode(key[|prefix| + 1..|prefix| + 9]);
        isMatch := compareNum.Some? && CompareDoubles(op, value, compareNum.value);
      } else if typePrefix == STRING {
        isMatch := CompareStrings(op, key[|prefix| + 1..], compareValue);
      } else {
        isMatch := false;
      }
    }

    // ---- edges ----

    method CreateEdge(source: u64, target: u64, lbl: string, properties: string) returns (ok: bool, id: u64)
      modifies this
      ensures Created(State(), ok, id)
           == Store.CreateEdge(old(State()), Edge(source, target, lbl, properties))
    {
      id := AllocateId();
      var value := ToKey(source) + ToKey(target);
      value := value + LittleEndian(|lbl| % TWO32, 4);
      value := value + lbl;
      value := value + properties;
      var edgeKey := ToKey(id);
      if edgeKey in edges { return false, id; }
      edges := edges[edgeKey := value];
      outIndex := PutNew(outIndex, ToKey(source) + edgeKey, ToKey(target));
      inIndex := PutNew(inIndex, ToKey(target) + edgeKey, ToKey(source));
      return true, id;
    }

    method FindEdge(id: u64) returns (edge: Option<Edge>)
      ensures edge == GetEdge(State(), id)
    {
      if ToKey(id) !in edges { return None; }
      var value := edges[ToKey(id)];
      if |value| < 20 { return None; }
      var labelSize := FromLittleEndian(value[16..20]);
      if (20 + labelSize) % TWO32 > |value| || 20 + labelSize > |value| { return None; }
      return Some(Edge(FromKey(value[..8]), FromKey(value[8..16]),
                       value[20..20 + labelSize], value[20 + labelSize..]));
    }

    method DeleteEdge(id: u64) returns (ok: bool)
      modifies this`edges, this`outIndex, this`inIndex
      ensures ok == GetEdge(old(State()), id).Some?
      ensures State() == Store.DeleteEdge(old(State()), id)
    {
      var edge := FindEdge(id);
      if edge.None? { return false; }
      var edgeKey := ToKey(id);
      outIndex := outIndex[ToKey(edge.value.source) + edgeKey := ""];
      inIndex := inIndex[ToKey(edge.value.target) + edgeKey := ""];
      edges := edges[edgeKey := ""];
      return true;
    }

    /** The iterator loop of the adjacency and label scans: every visited key starts with `prefix`. */
    method ScanIds(table: Table, prefix: string) returns (ids: seq<u64>)
      ensures ids == IdsBehind(Prefixed(table, prefix), |prefix|)
    {
      ids := [];
      var keys := Prefixed(table, prefix);
      var i := 0;
      while i < |keys|
        invariant 0 <= i <= |keys|
        invariant ids == IdsBehind(keys[..i], |prefix|)
      {
        var key := keys[i];
        assert key in keys && keys[..i + 1][..i] == keys[..i];
        i := i + 1;
        if |key| < |prefix| + 8 { continue; }
        if key[..|prefix|] != prefix { break; }
        ids := ids + [FromKey(key[|prefix|..|prefix| + 8])];
      }
      assert keys[..|keys|] == keys;
    }

    method GetOutgoingEdges(id: u64) returns (ids: seq<u64>)
      ensures ids == OutgoingEdges(State(), id)
    {
      ids := ScanIds(outIndex, ToKey(id));
    }

    method GetIncomingEdges(id: u64) returns (ids: seq<u64>)
      ensures ids == IncomingEdges(State(), id)
    {
      ids := ScanIds(inIndex, ToKey(id));
    }

    /** Fails on the empty label. */
    method FindNodesByLabel(lbl: string) returns (ok: bool, ids: seq<u64>)
      ensures ok == (lbl != "") && ids == if lbl == "" then [] else NodesByLabel(State(), lbl)
    {
      if lbl == "" { return false, []; }
      ids := ScanIds(labelIndex, lbl);
      ok := true;
    }

    method FindNodesByLabelIter(lbl: string) returns (iter: LabelIterator)
      ensures fresh(iter) && iter.Rest() == IteratedByLabel(State(), lbl)
    {
      iter := new LabelIterator(Prefixed(labelIndex, lbl), lbl);
    }
  }

  /** `label_iterator`: a pull-based scan. */
  class LabelIterator {
    const keys: seq<string>
    const lbl: string
    var index: nat
    var currentId: u64
    var valid: bool

    constructor (keys: seq<string>, lbl: string)
      ensures Rest() == IterateIds(keys, |lbl|)
    {
      this.keys, this.lbl := keys, lbl;
      index, currentId, valid := 0, 0, false;
      new;
      assert keys[0..] == keys;
    }

    /** The ids still to come. */
    ghost function Rest(): seq<u64>
      reads this
    {
      if index <= |keys| then IterateIds(keys[index..], |lbl|) else []
    }

    method Next() returns (more: bool)
      modifies this
      ensures more == (old(Rest()) != []) && valid == more
      ensures more ==> old(Rest()) == [currentId] + Rest()
      ensures !more ==> Rest() == []
    {
      if index >= |keys| { valid := false; index := |keys|; return false; }
      var key := keys[index];
      assert keys[index..][0] == key && keys[index..][1..] == keys[index + 1..];
      if |key| < |lbl| + 8 { valid := false; return false; }
      index := index + 1;
      currentId := FromKey(key[|lbl|..|lbl| + 8]);
      valid := true;
      return true;
    }
  }

  lemma NextGroup(packed: string, i: nat, id: u64)
    requires i + 8 <= |packed|
    ensures Unpack(packed[i..]) == [FromKey(packed[i..i + 8])] + Unpack(packed[i + 8..])
    ensures RemovePacked(packed[i..], id)
         == (if packed[i..i + 8] != ToKey(id) then packed[i..i + 8] else "") + RemovePacked(packed[i + 8..], id)
  {
    hide ToKey, FromKey;
    assert packed[i..][..8] == packed[i..i + 8] && packed[i..][8..] == packed[i + 8..];
  }

  lemma NoGroupLeft(rest: string, id: u64)
    requires |rest| < 8
    ensures Unpack(rest) == [] && RemovePacked(rest, id) == ""
  {
  }

  /** The prefix check of the interval loop never fails. */
  lemma KeysSharePrefix(ix: Table, prefix: string, op: string, t: u64, k: string)
    requires op != "<>" && k in IntervalKeys(ix, prefix, op, t)
    ensures StartsWith(k, prefix)
  {
    if RangeOp(op) {
      IntervalKeysAre(ix, prefix, op, t);
      IntervalSharesPrefix(prefix, k, op, t);
    } else {
      assert IntervalKeys(ix, prefix, op, t) == IntervalKeys(ix, prefix, "<", t);
      IntervalKeysAre(ix, prefix, "<", t);
      IntervalSharesPrefix(prefix, k, "<", t);
    }
  }

  function Batch(d: Db, ids: seq<u64>): seq<(u64, string)> {
    if ids == [] then [] else
    var id := ids[|ids| - 1];
    Batch(d, ids[..|ids| - 1]) + if ToKey(id) in d.nodes then [(id, d.nodes[ToKey(id)])] else []
  }

  lemma NothingKept(ix: Table, f: string -> bool)
    ensures Keep([], f) == [] && Collect(ix, []) == []
  {
  }

  lemma KeepNext(ix: Table, keys: seq<string>, i: nat, f: string -> bool)
    requires i < |keys| && keys[i] in ix && forall k :: k in Keep(keys[..i], f) ==> k in ix
    ensures Keep(keys[..i + 1], f) == if f(keys[i]) then Keep(keys[..i], f) + [keys[i]] else Keep(keys[..i], f)
    ensures Collect(ix, Keep(keys[..i], f) + [keys[i]]) == Collect(ix, Keep(keys[..i], f)) + Unpack(ix[keys[i]])
  {
    hide Unpack;
    assert keys[..i + 1][..i] == keys[..i];
    var kept := Keep(keys[..i], f);
    assert (kept + [keys[i]])[..|kept|] == kept;
  }

  lemma NoVisit(stod: Stod, lbl: string, m: map<string, string>, other: map<string, string>, ix: Table, id: u64)
    ensures VisitsOnce([], Changed(m, other) - m.Keys)
    ensures AddIds(ix, KeysInOrder(stod, lbl, m, []), id) == ix == RemoveIds(ix, KeysInOrder(stod, lbl, m, []), id)
  {
  }

  /** A changed key is visited; any other is passed over. */
  lemma VisitKey(m: map<string, string>, other: map<string, string>, order: seq<string>, todo: set<string>, key: string)
    requires VisitsOnce(order, Changed(m, other) - todo) && key in todo
    ensures key in Changed(m, other) ==> VisitsOnce(order + [key], Changed(m, other) - (todo - {key}))
    ensures key !in Changed(m, other) ==> VisitsOnce(order, Changed(m, other) - (todo - {key}))
  {
    hide Changed;
    var more := order + [key];
    assert forall i :: 0 <= i < |order| ==> more[i] == order[i] && order[i] in order;
    if key !in Changed(m, other) {
      assert Changed(m, other) - (todo - {key}) == Changed(m, other) - todo;
    }
  }

  lemma IndexNext(ix: Table, ks: seq<string>, k: string, id: u64)
    ensures AddIds(ix, ks + [k], id) == AddId(AddIds(ix, ks, id), k, id)
    ensures RemoveIds(ix, ks + [k], id) == RemoveId(RemoveIds(ix, ks, id), k, id)
  {
    hide AddId, RemoveId;
    assert (ks + [k])[..|ks|] == ks;
  }

  lemma NextInOrder(stod: Stod, lbl: string, m: map<string, string>, order: seq<string>, key: string)
    requires key in m && forall k :: k in order ==> k in m
    ensures KeysInOrder(stod, lbl, m, order + [key])
         == KeysInOrder(stod, lbl, m, order) + [BuildKey(stod, lbl, key, m[key])]
  {
  }
}
