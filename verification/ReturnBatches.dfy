/** RETURN in batches (executor.cpp, ADR-0012): property texts are loaded for one batch of rows at a time
    and the JSON text grows by appending. */
module ReturnBatches {
  import opened Bytes
  import opened Ast
  import opened Json
  import opened Store
  import opened Storage
  import opened Matching
  import opened ReturnClause
  import opened Batching

  type Cache = map<string, map<u64, string>>

  function CachedText(cache: Cache, x: string, id: u64): string {
    if x in cache && id in cache[x] then cache[x][id] else ""
  }

  /** The cache knows the nodes of the rows from start to end - 1. */
  ghost predicate Covers(d: Db, env: Env, items: seq<Item<Lit>>, cache: Cache, start: nat, end: nat) {
    forall i, row :: 0 <= i < |items| && start <= row < end ==>
      RowKnown(d, env, ItemVariable(items[i]), cache, row)
  }

  predicate RowKnown(d: Db, env: Env, x: string, cache: Cache, row: nat) {
    row < |Bound(env, x)| ==> CachedText(cache, x, Bound(env, x)[row]) == KnownText(d, x, Bound(env, x)[row])
  }

  function NeededVars(items: seq<Item<Lit>>): set<string> {
    set i | 0 <= i < |items| && ItemVariable(items[i]) != "" :: ItemVariable(items[i])
  }

  method LoadRows(store: Storage, env: Env, items: seq<Item<Lit>>, start: nat, end: nat) returns (cache: Cache)
    requires start <= end
    ensures Covers(store.State(), env, items, cache, start, end)
  {
    hide TextsOf, ToKey;
    cache := map[];
    var todo := NeededVars(items);
    while todo != {}
      invariant todo <= NeededVars(items) && forall x :: x in cache ==> x != ""
      invariant forall x, row :: x in NeededVars(items) - todo && start <= row < end ==>
        RowKnown(store.State(), env, x, cache, row)
    {
      var x :| x in todo;
      todo := todo - {x};
      if x !in env.context { continue; }
      var ids := env.context[x];
      var lo := if start < |ids| then start else |ids|;
      var hi := if end < |ids| then end else |ids|;
      var batch := ids[lo..hi];
      if batch == [] { continue; }
      var texts := LoadTexts(store, batch);
      var before := cache;
      cache := cache[x := texts];
      forall row | start <= row < end ensures RowKnown(store.State(), env, x, cache, row) {
        if row < |ids| {
          assert batch[row - lo] == ids[row] && ids[row] in batch;
          TextInBatch(store.State(), batch, texts, ids[row]);
        }
      }
      forall y, row | y in NeededVars(items) - todo && y != x && start <= row < end
        ensures RowKnown(store.State(), env, y, cache, row)
      {
        assert RowKnown(store.State(), env, y, before, row);
      }
    }
    forall i, row | 0 <= i < |items| && start <= row < end
      ensures RowKnown(store.State(), env, ItemVariable(items[i]), cache, row)
    {
      if ItemVariable(items[i]) != "" { assert ItemVariable(items[i]) in NeededVars(items); }
    }
  }

  lemma TextInBatch(d: Db, ids: seq<u64>, texts: map<u64, string>, id: u64)
    requires TextsOf(d, ids, texts) && id in ids
    ensures (if id in texts then texts[id] else "") == NodeText(d, id)
  {
    hide ToKey;
  }

  /** One item of one row. */
  method EmitItem(store: Storage, env: Env, item: Item<Lit>, row: nat, cache: Cache) returns (text: string)
    requires RowKnown(store.State(), env, ItemVariable(item), cache, row)
    ensures text == ItemText(store.State(), env, item, row)
  {
    hide GetValue, Decimal, TextOf;
    if !item.expr.Variable? && !item.expr.PropertyAccess? { return ""; }
    var x := ItemVariable(item);
    text := Quoted(Alias(item)) + ": ";
    if x !in env.context || row >= |env.context[x]| { return text + "null"; }
    var id := env.context[x][row];
    var known := CachedText(cache, x, id);
    var value;
    if item.expr.Variable? {
      if known != "" {
        value := known;
      } else {
        value := EmitEdge(store, id);
      }
    } else {
      value := EmitProperty(known, item.expr.key);
    }
    return text + value;
  }

  method EmitEdge(store: Storage, id: u64) returns (text: string)
    ensures text == EdgeText(store.State(), id)
  {
    hide GetEdge, Decimal;
    var found := store.FindEdge(id);
    if found.None? { return "null"; }
    var edge := found.value;
    text := "{\"_id\": " + Decimal(id) + ", \"_from\": " + Decimal(edge.source)
      + ", \"_to\": " + Decimal(edge.target) + ", \"_label\": \"" + edge.lbl + "\"";
    if edge.properties != "" && edge.properties != "{}" {
      text := text + ", \"_properties\": " + edge.properties;
    }
    text := text + "}";
  }

  method EmitProperty(props: string, key: string) returns (text: string)
    ensures text == PropertyText(props, key)
  {
    hide GetValue;
    if props == "" { return "null"; }
    var value := GetJsonValue(props, key);
    if value == "" { return "null"; }
    if LooksNumeric(value) { return value; }
    return Quoted(value);
  }

  method CountRows(env: Env, items: seq<Item<Lit>>) returns (maxRows: nat)
    ensures maxRows == RowCount(env, items)
  {
    maxRows := 1;
    for i := 0 to |items|
      invariant maxRows == RowCount(env, items[..i])
    {
      assert items[..i + 1][..i] == items[..i];
      var x := ItemVariable(items[i]);
      if x != "" && x in env.context && |env.context[x]| > maxRows {
        maxRows := |env.context[x]|;
      }
    }
    assert items[..|items|] == items;
  }

  /** Any positive batch size gives the text of the rows one by one. */
  method ReturnBatched(store: Storage, env: Env, items: seq<Item<Lit>>, batchSize: nat) returns (json: string)
    requires batchSize > 0
    ensures json == ReturnText(store.State(), env, items)
  {
    hide ItemsText, RowCount;
    var maxRows := CountRows(env, items);
    var rows := "";
    var start := 0;
    while start < maxRows
      invariant start <= maxRows
      invariant rows == RowsText(store.State(), env, items, start)
      decreases maxRows - start
    {
      var end := if start + batchSize < maxRows then start + batchSize else maxRows;
      var cache := LoadRows(store, env, items, start, end);
      for row := start to end
        invariant rows == RowsText(store.State(), env, items, row)
      {
        var line := EmitRow(store, env, items, row, cache, start, end);
        if row > 0 { rows := rows + ", "; }
        rows := rows + "{";
        rows := rows + line;
        rows := rows + "}";
      }
      start := end;
    }
    return "[" + rows + "]";
  }

  method EmitRow(store: Storage, env: Env, items: seq<Item<Lit>>, row: nat, cache: Cache, ghost start: nat, ghost end: nat)
    returns (text: string)
    requires start <= row < end && Covers(store.State(), env, items, cache, start, end)
    ensures text == ItemsText(store.State(), env, items, row)
  {
    hide ItemText, RowKnown;
    text := "";
    for i := 0 to |items|
      invariant text == ItemsText(store.State(), env, items[..i], row)
    {
      assert items[..i + 1][..i] == items[..i];
      assert RowKnown(store.State(), env, ItemVariable(items[i]), cache, row);
      if i > 0 { text := text + ", "; }
      var item := EmitItem(store, env, items[i], row, cache);
      text := text + item;
    }
    assert items[..|items|] == items;
  }
}
