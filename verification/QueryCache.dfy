/** The LRU cache for parsed queries (query_cache.h), built from three structures that have to agree. */
module QueryCache {
  import opened Bytes
  import opened Lru

  /** A node of the `std::list`; an iterator is a reference to a node. */
  class ListNode {
    const key: string

    constructor (key: string)
      ensures this.key == key
    {
      this.key := key;
    }
  }

  class QueryCache<V> {
    const maxSize: nat
    var cache: map<string, V>
    var lruOrder: seq<ListNode>
    var lruMap: map<string, ListNode>

    /** The keys of the three structures coincide, without duplicates and within capacity, and every
        stored iterator points into the list. */
    ghost predicate Valid()
      reads this
    {
      0 < maxSize && |cache| <= maxSize && Coupled(cache.Keys, lruOrder, lruMap)
    }

    ghost function State(): Recency<V>
      reads this
    {
      Recency(KeysOf(lruOrder), cache)
    }

    constructor (maxSize: nat)
      requires maxSize > 0
      ensures Valid() && this.maxSize == maxSize && State() == Recency([], map[])
    {
      this.maxSize := maxSize;
      cache, lruOrder, lruMap := map[], [], map[];
    }

    /** `lru_order_.erase(it)`. */
    method Erase(it: ListNode)
      modifies this`lruOrder
      ensures lruOrder == Erased(old(lruOrder), it)
    {
      var i := 0;
      while i < |lruOrder| && lruOrder[i] != it
        invariant i <= |lruOrder|
        invariant Erased(lruOrder, it) == lruOrder[..i] + Erased(lruOrder[i..], it)
      {
        assert lruOrder[i..][1..] == lruOrder[i + 1..];
        i := i + 1;
      }
      if i < |lruOrder| {
        assert lruOrder[i..][1..] == lruOrder[i + 1..];
        lruOrder := lruOrder[..i] + lruOrder[i + 1..];
      } else {
        assert lruOrder[i..] == [];
      }
    }

    /** Moves a key to the front: erase, push_front, store the new iterator. */
    method Touch(query: string)
      requires Valid() && query in cache
      modifies this`lruOrder, this`lruMap
      ensures Valid() && State() == old(State()).(order := ToFront(old(State()).order, query))
    {
      hide Coupled;
      ghost var nodes, at := lruOrder, lruMap;
      assert query in lruMap by { HasNode(cache.Keys, nodes, at, query); }
      EraseKey(cache.Keys, nodes, at, query);
      Erase(lruMap[query]);
      var front := new ListNode(query);
      PushFront(cache.Keys - {query}, lruOrder, at - {query}, front);
      lruOrder := [front] + lruOrder;
      lruMap := lruMap[query := front];
      assert cache.Keys - {query} + {query} == cache.Keys;
      assert lruMap == (at - {query})[query := front];
    }

    method Get(query: string) returns (found: Option<V>)
      requires Valid()
      modifies this`lruOrder, this`lruMap
      ensures Valid() && State() == Lru.Get(old(State()), query)
      ensures found == if query in old(cache) then Some(old(cache)[query]) else None
    {
      if query !in cache { return None; }
      Touch(query);
      return Some(cache[query]);
    }

    method Put(query: string, stmt: V)
      requires Valid()
      modifies this
      ensures Valid() && State() == Lru.Put(old(State()), maxSize, query, stmt)
    {
      hide Coupled, ToFront;
      if query in cache {
        Touch(query);
        cache := cache[query := stmt];
        assert cache.Keys == old(cache.Keys);
        return;
      }
      SizesAgree(cache.Keys, lruOrder, lruMap);
      if |cache| >= maxSize {
        Evict();
      }
      Insert(query, stmt);
    }

    method Insert(query: string, stmt: V)
      requires Valid() && query !in cache && |cache| < maxSize
      modifies this
      ensures Valid() && State() == Recency([query] + old(State()).order, old(cache)[query := stmt])
    {
      hide Coupled;
      ghost var keys := cache.Keys;
      cache := cache[query := stmt];
      var front := new ListNode(query);
      PushFront(keys, lruOrder, lruMap, front);
      lruOrder := [front] + lruOrder;
      lruMap := lruMap[query := front];
      assert cache.Keys == keys + {query};
    }

    /** The last list node names the victim in both maps. */
    method Evict()
      requires Valid() && lruOrder != []
      modifies this
      ensures Valid() && |cache| < maxSize
      ensures var last := |old(lruOrder)| - 1;
        State() == Recency(old(State()).order[..last], old(cache) - {old(State()).order[last]})
    {
      hide Coupled;
      var lruKey := lruOrder[|lruOrder| - 1].key;
      PopBack(cache.Keys, lruOrder, lruMap);
      assert (cache - {lruKey}).Keys == cache.Keys - {lruKey};
      cache := cache - {lruKey};
      lruMap := lruMap - {lruKey};
      lruOrder := lruOrder[..|lruOrder| - 1];
    }

    method Clear()
      requires Valid()
      modifies this
      ensures Valid() && State() == Recency([], map[])
    {
      cache, lruOrder, lruMap := map[], [], map[];
    }

    method Size() returns (n: nat)
      requires Valid()
      ensures n == |State().order| <= maxSize
    {
      SizesAgree(cache.Keys, lruOrder, lruMap);
      n := |cache|;
    }

    /** The lookup of one request (service.cpp): None if the query does not parse. */
    method Lookup(parse: string -> Option<V>, query: string) returns (stmt: Option<V>)
      requires Valid()
      modifies this
      ensures Valid() && State() == Serve(old(State()), maxSize, parse, query)
      ensures stmt == if query in old(cache) then Some(old(cache)[query]) else parse(query)
    {
      hide Coupled, Lru.Put;
      stmt := Get(query);
      if stmt.None? {
        stmt := parse(query);
        if stmt.Some? { Put(query, stmt.value); }
      }
    }

    /** A whole trace of requests on a new cache: the list is the reference list, and every request that
        parses gets its own statement. */
    method ServeAll(parse: string -> Option<V>, qs: seq<string>) returns (stmts: seq<Option<V>>)
      requires Valid() && State() == Recency([], map[])
      modifies this
      ensures Valid() && State() == Trace(maxSize, parse, qs)
      ensures |stmts| == |qs| && forall i :: 0 <= i < |qs| ==> stmts[i] == parse(qs[i])
    {
      hide Coupled, Serve, Latest, Top;
      stmts := [];
      for i := 0 to |qs|
        invariant Valid() && State() == Trace(maxSize, parse, qs[..i])
        invariant |stmts| == i && forall j :: 0 <= j < i ==> stmts[j] == parse(qs[j])
      {
        assert qs[..i + 1][..i] == qs[..i];
        TraceKeepsLatest(maxSize, parse, qs[..i]);
        var stmt := Lookup(parse, qs[i]);
        stmts := stmts + [stmt];
      }
      assert qs[..|qs|] == qs;
    }
  }

  function KeysOf(nodes: seq<ListNode>): (keys: seq<string>)
    ensures |keys| == |nodes|
  {
    seq(|nodes|, i requires 0 <= i < |nodes| => nodes[i].key)
  }

  function Erased(nodes: seq<ListNode>, it: ListNode): seq<ListNode> {
    if nodes == [] then []
    else if nodes[0] == it then nodes[1..]
    else [nodes[0]] + Erased(nodes[1..], it)
  }

  /** The three structures agree: one list node per key, found through its iterator. */
  ghost predicate Coupled(keys: set<string>, nodes: seq<ListNode>, at: map<string, ListNode>) {
    at.Keys == keys && |keys| == |nodes| && Reached(nodes, at) && PointedTo(nodes, at) && NoRepeat(nodes)
  }

  ghost predicate Reached(nodes: seq<ListNode>, at: map<string, ListNode>) {
    forall k :: k in at ==> at[k] in nodes && at[k].key == k
  }

  ghost predicate PointedTo(nodes: seq<ListNode>, at: map<string, ListNode>) {
    forall n :: n in nodes ==> n.key in at && at[n.key] == n
  }

  predicate NoRepeat(nodes: seq<ListNode>) {
    forall i, j :: 0 <= i < j < |nodes| ==> nodes[i] != nodes[j]
  }

  lemma SizesAgree(keys: set<string>, nodes: seq<ListNode>, at: map<string, ListNode>)
    requires Coupled(keys, nodes, at)
    ensures |keys| == |nodes|
  {
  }

  /** The list names every key of the maps once. */
  lemma ListNamesKeys(keys: set<string>, nodes: seq<ListNode>, at: map<string, ListNode>)
    requires Coupled(keys, nodes, at)
    ensures Distinct(KeysOf(nodes)) && forall k :: k in KeysOf(nodes) <==> k in keys
  {
    assert forall i :: 0 <= i < |nodes| ==> nodes[i] in nodes;
    forall k | k in keys ensures k in KeysOf(nodes) {
      var i :| 0 <= i < |nodes| && nodes[i] == at[k];
      assert KeysOf(nodes)[i] == k;
    }
  }

  lemma HasNode(keys: set<string>, nodes: seq<ListNode>, at: map<string, ListNode>, query: string)
    requires Coupled(keys, nodes, at) && query in keys
    ensures query in at
  {
  }

  lemma PushFront(keys: set<string>, nodes: seq<ListNode>, at: map<string, ListNode>, front: ListNode)
    requires Coupled(keys, nodes, at) && front.key !in keys && front !in nodes
    ensures Coupled(keys + {front.key}, [front] + nodes, at[front.key := front])
    ensures KeysOf([front] + nodes) == [front.key] + KeysOf(nodes)
  {
    hide Reached, PointedTo, NoRepeat;
    PushedNodes(nodes, at, front);
    PushedSizes(keys, nodes, at, front);
  }

  lemma PushedSizes(keys: set<string>, nodes: seq<ListNode>, at: map<string, ListNode>, front: ListNode)
    requires at.Keys == keys && |keys| == |nodes| && front.key !in keys
    ensures at[front.key := front].Keys == keys + {front.key}
    ensures |keys + {front.key}| == |[front] + nodes|
  {
  }

  lemma PushedNodes(nodes: seq<ListNode>, at: map<string, ListNode>, front: ListNode)
    requires Reached(nodes, at) && PointedTo(nodes, at) && NoRepeat(nodes)
    requires front.key !in at && front !in nodes
    ensures var more := [front] + nodes; var at1 := at[front.key := front];
      Reached(more, at1) && PointedTo(more, at1) && NoRepeat(more)
  {
    assert forall n :: n in [front] + nodes <==> n == front || n in nodes;
  }

  lemma EraseKey(keys: set<string>, nodes: seq<ListNode>, at: map<string, ListNode>, query: string)
    requires Coupled(keys, nodes, at) && query in keys
    ensures Coupled(keys - {query}, Erased(nodes, at[query]), at - {query})
    ensures KeysOf(Erased(nodes, at[query])) == Without(KeysOf(nodes), query)
  {
    hide Reached, PointedTo, NoRepeat, KeysOf, Erased, Without;
    assert at[query] in nodes && at[query].key == query by { NodeOf(nodes, at, query); }
    ErasedIs(nodes, at[query]);
    NodesWithKey(nodes, at, query);
    ErasedKeys(nodes, query, at[query]);
    LeftNodes(nodes, at, query, Erased(nodes, at[query]));
    LeftSizes(keys, at, query);
  }

  lemma NodeOf(nodes: seq<ListNode>, at: map<string, ListNode>, query: string)
    requires Reached(nodes, at) && query in at
    ensures at[query] in nodes && at[query].key == query
  {
  }

  lemma LeftSizes(keys: set<string>, at: map<string, ListNode>, query: string)
    requires at.Keys == keys && query in keys
    ensures (at - {query}).Keys == keys - {query} && |keys - {query}| == |keys| - 1
  {
  }

  lemma NodesWithKey(nodes: seq<ListNode>, at: map<string, ListNode>, query: string)
    requires PointedTo(nodes, at) && query in at
    ensures forall i :: 0 <= i < |nodes| && nodes[i].key == query ==> nodes[i] == at[query]
  {
    assert forall i :: 0 <= i < |nodes| ==> nodes[i] in nodes;
  }

  lemma LeftNodes(nodes: seq<ListNode>, at: map<string, ListNode>, query: string, rest: seq<ListNode>)
    requires Reached(nodes, at) && PointedTo(nodes, at) && query in at
    requires forall n :: n in rest <==> n in nodes && n != at[query]
    ensures Reached(rest, at - {query}) && PointedTo(rest, at - {query})
  {
  }

  lemma PopBack(keys: set<string>, nodes: seq<ListNode>, at: map<string, ListNode>)
    requires Coupled(keys, nodes, at) && nodes != []
    ensures var n := |nodes| - 1; var k := nodes[n].key;
      && k in keys && KeysOf(nodes)[n] == k
      && Coupled(keys - {k}, nodes[..n], at - {k}) && KeysOf(nodes[..n]) == KeysOf(nodes)[..n]
  {
    hide Reached, PointedTo, NoRepeat;
    var n := |nodes| - 1;
    LastNode(nodes, at);
    var k := nodes[n].key;
    LeftNodes(nodes, at, k, nodes[..n]);
    LeftSizes(keys, at, k);
  }

  lemma LastNode(nodes: seq<ListNode>, at: map<string, ListNode>)
    requires PointedTo(nodes, at) && NoRepeat(nodes) && nodes != []
    ensures var n := |nodes| - 1;
      && nodes[n].key in at && at[nodes[n].key] == nodes[n] && NoRepeat(nodes[..n])
      && forall x :: x in nodes[..n] <==> x in nodes && x != nodes[n]
  {
    var n := |nodes| - 1;
    assert nodes[n] in nodes;
    forall x | x in nodes && x != nodes[n] ensures x in nodes[..n] {
      var i :| 0 <= i < |nodes| && nodes[i] == x;
      assert nodes[..n][i] == x;
    }
  }

  lemma {:induction false} ErasedIs(nodes: seq<ListNode>, it: ListNode)
    requires it in nodes && NoRepeat(nodes)
    ensures var r := Erased(nodes, it);
      && |r| == |nodes| - 1
      && (forall n :: n in r <==> n in nodes && n != it)
      && NoRepeat(r)
  {
    assert nodes == [nodes[0]] + nodes[1..];
    if nodes[0] != it {
      ErasedIs(nodes[1..], it);
      var rest := Erased(nodes[1..], it);
      forall j | 0 <= j < |rest| ensures rest[j] != nodes[0] { assert rest[j] in rest; }
    }
  }

  lemma {:induction false} ErasedKeys(nodes: seq<ListNode>, query: string, it: ListNode)
    requires it in nodes && it.key == query
    requires forall i :: 0 <= i < |nodes| && nodes[i].key == query ==> nodes[i] == it
    ensures KeysOf(Erased(nodes, it)) == Without(KeysOf(nodes), query)
  {
    assert nodes == [nodes[0]] + nodes[1..];
    assert KeysOf(nodes)[1..] == KeysOf(nodes[1..]);
    if nodes[0] != it {
      assert forall i :: 0 <= i < |nodes[1..]| ==> nodes[1..][i] == nodes[i + 1];
      ErasedKeys(nodes[1..], query, it);
      assert KeysOf(Erased(nodes, it)) == [nodes[0].key] + KeysOf(Erased(nodes[1..], it));
    }
  }
}
