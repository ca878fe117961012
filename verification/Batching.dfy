/** Chunked and sliced scans (ADR-0005, ADR-0012): node texts are loaded chunk by chunk, and a large
    chunk is cut into one slice per thread. What comes out is the one-pass filter's list. */
module Batching {
  import opened Bytes
  import opened SortableDouble
  import opened Json
  import opened Store
  import opened Storage
  import opened Ranges
  import opened Matching
  import opened Where

  /** The texts of those ids that have a record. */
  ghost predicate TextsOf(d: Db, ids: seq<u64>, texts: map<u64, string>) {
    && (forall id :: id in texts <==> id in ids && ToKey(id) in d.nodes)
    && forall id :: id in texts ==> texts[id] == NodeText(d, id)
  }

  lemma {:induction false} BatchIs(d: Db, ids: seq<u64>)
    ensures forall r :: r in Batch(d, ids) <==> r.0 in ids && ToKey(r.0) in d.nodes && r.1 == NodeText(d, r.0)
  {
    hide ToKey;
    if ids != [] {
      var n := |ids| - 1;
      BatchIs(d, ids[..n]);
      assert forall x :: x in ids <==> x in ids[..n] || x == ids[n];
    }
  }

  method LoadTexts(store: Storage, ids: seq<u64>) returns (texts: map<u64, string>)
    ensures TextsOf(store.State(), ids, texts)
  {
    hide ToKey, Batch;
    var results := store.GetNodesBatch(ids);
    BatchIs(store.State(), ids);
    texts := map[];
    for i := 0 to |results|
      invariant forall id :: id in texts ==> texts[id] == NodeText(store.State(), id)
      invariant forall id :: id in texts ==> id in ids && ToKey(id) in store.nodes
      invariant forall j :: 0 <= j < i ==> results[j].0 in texts
    {
      assert results[i] in results;
      texts := texts[results[i].0 := results[i].1];
    }
    forall id | id in ids && ToKey(id) in store.nodes ensures id in texts {
      var r := (id, NodeText(store.State(), id));
      assert r in results;
      var j :| 0 <= j < |results| && results[j] == r;
    }
  }

  /** The filter of the full scan on one loaded text. */
  method TestText(stod: Stod, f: Filter, text: string) returns (keep: bool)
    ensures keep == TextPasses(stod, f, text)
  {
    hide GetValue, CompareDoubles, CompareStrings;
    var value := GetJsonValue(text, f.property);
    if value == "" { return false; }
    if f.op == "=" { return value == CompareText(f); }
    var number := CompareNumber(stod, f);
    if number.Some? {
      var nodeValue := stod(value);
      if nodeValue.None? { return false; }
      return CompareDoubles(f.op, nodeValue.value, number.value);
    } else {
      return CompareStrings(f.op, value, CompareText(f));
    }
  }

  /** One slice of a chunk. */
  method FilterSlice(store: Storage, f: Filter, ids: seq<u64>, begin: nat, end: nat, texts: map<u64, string>)
    returns (kept: seq<u64>)
    requires begin <= end <= |ids| && TextsOf(store.State(), ids, texts)
    ensures FullScan(store.stod, store.State(), f, ids[..end])
         == FullScan(store.stod, store.State(), f, ids[..begin]) + kept
  {
    hide TextPasses, ToKey;
    kept := [];
    for i := begin to end
      invariant FullScan(store.stod, store.State(), f, ids[..i])
             == FullScan(store.stod, store.State(), f, ids[..begin]) + kept
    {
      assert ids[..i + 1][..i] == ids[..i] && ids[i] in ids;
      if ids[i] in texts {
        var keep := TestText(store.stod, f, texts[ids[i]]);
        if keep { kept := kept + [ids[i]]; }
      }
    }
  }

  /** n slices of ceil(size / n) elements cover everything. */
  lemma CeilCovers(size: nat, n: nat)
    requires n > 0
    ensures n * ((size + n - 1) / n) >= size
  {
    var q := (size + n - 1) / n;
    assert q * n + (size + n - 1) % n == size + n - 1;
  }

  /** The slices of a chunk, worked on separately and joined in order. */
  method FilterSliced(store: Storage, f: Filter, ids: seq<u64>, texts: map<u64, string>, threads: nat)
    returns (kept: seq<u64>)
    requires threads > 0 && TextsOf(store.State(), ids, texts)
    ensures kept == FullScan(store.stod, store.State(), f, ids)
  {
    hide FullScan, TextsOf;
    var size := (|ids| + threads - 1) / threads;
    CeilCovers(|ids|, threads);
    var perThread: seq<seq<u64>> := [];
    var begin, t := 0, 0;
    assert ids[..0] == [];
    assert FullScan(store.stod, store.State(), f, []) == Join(perThread) by { EmptyScan(store.stod, store.State(), f); }
    while t < threads && begin < |ids|
      invariant t <= threads && begin == t * size
      invariant FullScan(store.stod, store.State(), f, ids[..Clip(begin, |ids|)]) == Join(perThread)
      decreases threads - t
    {
      var end := if begin + size < |ids| then begin + size else |ids|;
      var local := FilterSlice(store, f, ids, begin, end, texts);
      JoinLast(perThread, local);
      perThread := perThread + [local];
      begin := begin + size;
      t := t + 1;
    }
    assert begin >= |ids|;
    assert ids[..|ids|] == ids;
    kept := Joined(perThread);
  }

  /** The results of the threads, in the threads' order. */
  method Joined(perThread: seq<seq<u64>>) returns (kept: seq<u64>)
    ensures kept == Join(perThread)
  {
    kept := [];
    for i := 0 to |perThread|
      invariant kept == Join(perThread[..i])
    {
      assert perThread[..i + 1] == perThread[..i] + [perThread[i]];
      JoinLast(perThread[..i], perThread[i]);
      kept := kept + perThread[i];
    }
    assert perThread[..|perThread|] == perThread;
  }

  function Clip(x: nat, max: nat): (r: nat)
    ensures r <= max
  {
    if x < max then x else max
  }

  function Join(parts: seq<seq<u64>>): seq<u64> {
    if parts == [] then [] else Join(parts[..|parts| - 1]) + parts[|parts| - 1]
  }

  lemma JoinLast(parts: seq<seq<u64>>, last: seq<u64>)
    ensures Join(parts + [last]) == Join(parts) + last
  {
    assert (parts + [last])[..|parts|] == parts;
  }

  lemma EmptyScan(stod: Stod, d: Db, f: Filter)
    ensures FullScan(stod, d, f, []) == []
  {
  }

  lemma {:induction false} FullScanAppend(stod: Stod, d: Db, f: Filter, a: seq<u64>, b: seq<u64>)
    ensures FullScan(stod, d, f, a + b) == FullScan(stod, d, f, a) + FullScan(stod, d, f, b)
  {
    hide NodePasses;
    if b == [] {
      assert a + b == a;
    } else {
      var n := |b| - 1;
      assert (a + b)[..|a + b| - 1] == a + b[..n];
      FullScanAppend(stod, d, f, a, b[..n]);
    }
  }

  /** The full scan in chunks, with any batch size, parallel threshold and number of cores: the same ids
      in the same order and multiplicity as one pass. */
  method FullScanBatched(store: Storage, f: Filter, ids: seq<u64>, batchSize: nat, threshold: nat, cores: nat)
    returns (filtered: seq<u64>)
    requires batchSize > 0
    ensures filtered == FullScan(store.stod, store.State(), f, ids)
  {
    hide FullScan, TextsOf;
    filtered := [];
    var offset := 0;
    assert ids[..0] == [];
    EmptyScan(store.stod, store.State(), f);
    while offset < |ids|
      invariant offset <= |ids|
      invariant filtered == FullScan(store.stod, store.State(), f, ids[..offset])
      decreases |ids| - offset
    {
      var end := if offset + batchSize < |ids| then offset + batchSize else |ids|;
      var chunk := ids[offset..end];
      var texts := LoadTexts(store, chunk);
      var part;
      if |chunk| >= threshold {
        var threads := if cores < |chunk| / 1000 then cores else |chunk| / 1000;
        if threads < 2 { threads := 2; }
        part := FilterSliced(store, f, chunk, texts, threads);
      } else {
        part := FilterSlice(store, f, chunk, 0, |chunk|, texts);
        assert chunk[..|chunk|] == chunk && chunk[..0] == [];
      }
      FullScanAppend(store.stod, store.State(), f, ids[..offset], chunk);
      assert ids[..end] == ids[..offset] + chunk;
      filtered := filtered + part;
      offset := end;
    }
    assert ids[..|ids|] == ids;
  }

  const BATCH_SIZE: nat := 1024
  const PARALLEL_THRESHOLD: nat := 10000

  /** The three paths of WHERE for a variable bound to `ids` under `lbl` ("" for none). */
  method FilterIds(store: Storage, f: Filter, lbl: string, ids: seq<u64>, cores: nat) returns (kept: seq<u64>)
    ensures kept == FilteredIds(store.stod, store.State(), f, lbl, ids)
  {
    hide NodesByProperty, NodesByRange, FullScan, Sort, Intersect;
    if f.op == "=" && lbl != "" {
      var found := store.FindNodesByProperty(lbl, f.property, CompareText(f));
      return Intersect(Sort(ids), Sort(found));
    }
    if f.op != "=" && f.op != "<>" && lbl != "" {
      var ok, found := store.FindNodesByPropertyRange(lbl, f.property, f.op, CompareText(f));
      if ok { return Intersect(Sort(ids), Sort(found)); }
    }
    kept := FullScanBatched(store, f, ids, BATCH_SIZE, PARALLEL_THRESHOLD, cores);
  }
}
