/** The recency list that the query cache (query_cache.h) refines: what is kept after a trace of
    lookups (service.cpp, `get` and `put` on a miss), said without hash maps and iterators. */
module Lru {
  import opened Bytes

  /** Keys from the most to the least recently used, and what is held for them. */
  datatype Recency<V> = Recency(order: seq<string>, held: map<string, V>)

  function Without(order: seq<string>, q: string): seq<string> {
    if order == [] then []
    else if order[0] == q then order[1..]
    else [order[0]] + Without(order[1..], q)
  }

  function ToFront(order: seq<string>, q: string): seq<string> {
    [q] + Without(order, q)
  }

  function Get<V>(r: Recency<V>, q: string): Recency<V> {
    if q in r.held then r.(order := ToFront(r.order, q)) else r
  }

  function Put<V>(r: Recency<V>, capacity: nat, q: string, v: V): Recency<V> {
    if q in r.held then Recency(ToFront(r.order, q), r.held[q := v])
    else if |r.order| >= capacity && r.order != [] then
      var last := |r.order| - 1;
      Recency([q] + r.order[..last], (r.held - {r.order[last]})[q := v])
    else Recency([q] + r.order, r.held[q := v])
  }

  /** One request: a lookup, and on a miss the parsed query is put; a query that does not parse throws. */
  function Serve<V>(r: Recency<V>, capacity: nat, parse: string -> Option<V>, q: string): Recency<V> {
    if q in r.held then Get(r, q)
    else match parse(q)
         case None => Get(r, q)
         case Some(v) => Put(Get(r, q), capacity, q, v)
  }

  function Trace<V>(capacity: nat, parse: string -> Option<V>, qs: seq<string>): Recency<V> {
    if qs == [] then Recency([], map[])
    else Serve(Trace(capacity, parse, qs[..|qs| - 1]), capacity, parse, qs[|qs| - 1])
  }

  predicate Distinct(order: seq<string>) {
    forall i, j :: 0 <= i < j < |order| ==> order[i] != order[j]
  }

  lemma {:induction false} WithoutIs(order: seq<string>, q: string)
    requires Distinct(order)
    ensures Distinct(Without(order, q))
    ensures forall k :: k in Without(order, q) <==> k in order && k != q
    ensures |Without(order, q)| == if q in order then |order| - 1 else |order|
  {
    if order != [] {
      assert order == [order[0]] + order[1..];
      WithoutIs(order[1..], q);
      if order[0] != q {
        var rest := Without(order[1..], q);
        forall j | 0 <= j < |rest| ensures rest[j] != order[0] { assert rest[j] in rest; }
      }
    }
  }

  /** The longest prefix that fits. */
  function Top(order: seq<string>, capacity: nat): seq<string> {
    if |order| <= capacity then order else order[..capacity]
  }

  lemma {:induction false} TopWithout(order: seq<string>, q: string, capacity: nat)
    requires Distinct(order) && capacity > 0 && q in Top(order, capacity)
    ensures Top(Without(order, q), capacity - 1) == Without(Top(order, capacity), q)
  {
    hide Top;
    TopTail(order, capacity);
    var top := Top(order, capacity);
    assert top == [order[0]] + Top(order[1..], capacity - 1);
    if order[0] != q {
      assert capacity > 1 by { TopZero(order[1..]); }
      TopWithout(order[1..], q, capacity - 1);
      TopTail(Without(order, q), capacity - 1);
      assert Without(order, q)[1..] == Without(order[1..], q);
      assert top[1..] == Top(order[1..], capacity - 1);
    } else {
      assert top[1..] == Top(order[1..], capacity - 1);
    }
  }

  lemma TopTail(order: seq<string>, capacity: nat)
    requires capacity > 0
    ensures order != [] ==> Top(order, capacity) == [order[0]] + Top(order[1..], capacity - 1)
    ensures order == [] ==> Top(order, capacity) == []
  {
  }

  lemma TopZero(order: seq<string>)
    ensures Top(order, 0) == []
  {
  }

  lemma {:induction false} TopWithoutLater(order: seq<string>, q: string, capacity: nat)
    requires capacity > 0 && q !in Top(order, capacity)
    ensures Top(Without(order, q), capacity - 1) == Top(order, capacity - 1)
  {
    hide Top;
    TopTail(order, capacity);
    if order != [] {
      assert order[0] == Top(order, capacity)[0] && order[0] != q;
      assert Without(order, q)[1..] == Without(order[1..], q);
      if capacity > 1 {
        assert forall k :: k in Top(order[1..], capacity - 1) ==> k in Top(order, capacity);
        TopWithoutLater(order[1..], q, capacity - 1);
        TopTail(order, capacity - 1);
        TopTail(Without(order, q), capacity - 1);
      } else {
        TopZero(order);
        TopZero(Without(order, q));
      }
    }
  }

  // ---- the declarative reading ----

  predicate Parses<V>(parse: string -> Option<V>, q: string) {
    parse(q).Some?
  }

  /** Position of the last occurrence, -1 if there is none. */
  function LastUse(qs: seq<string>, q: string): (i: int)
    ensures -1 <= i < |qs|
  {
    if qs == [] then -1
    else if qs[|qs| - 1] == q then |qs| - 1
    else LastUse(qs[..|qs| - 1], q)
  }

  /** Every query that parses, once, the latest first. */
  function Latest<V>(parse: string -> Option<V>, qs: seq<string>): seq<string> {
    if qs == [] then [] else
    var earlier := Latest(parse, qs[..|qs| - 1]);
    if Parses(parse, qs[|qs| - 1]) then ToFront(earlier, qs[|qs| - 1]) else earlier
  }

  ghost predicate ByLastUse<V>(parse: string -> Option<V>, qs: seq<string>, order: seq<string>) {
    && (forall q :: q in order <==> Parses(parse, q) && q in qs)
    && Descending(qs, order)
  }

  ghost predicate Descending(qs: seq<string>, order: seq<string>) {
    forall i, j :: 0 <= i < j < |order| ==> LastUse(qs, order[i]) > LastUse(qs, order[j])
  }

  lemma {:induction false} WithoutKeepsOrder(qs: seq<string>, order: seq<string>, q: string)
    requires Descending(qs, order)
    ensures Descending(qs, Without(order, q))
    ensures forall k :: k in Without(order, q) ==> k in order
  {
    hide LastUse;
    if order != [] {
      var tail := order[1..];
      assert order == [order[0]] + tail;
      assert forall i :: 0 <= i < |tail| ==> tail[i] == order[i + 1];
      WithoutKeepsOrder(qs, tail, q);
      if order[0] != q {
        var rest := Without(tail, q);
        forall j | 0 <= j < |rest| ensures LastUse(qs, order[0]) > LastUse(qs, rest[j]) {
          assert rest[j] in tail;
          var i :| 0 <= i < |tail| && tail[i] == rest[j];
        }
        assert Without(order, q) == [order[0]] + rest;
      }
    }
  }

  /** `Latest` is what its name says: exactly the parsing queries of the trace, by their last use. */
  lemma {:induction false} LatestByLastUse<V>(parse: string -> Option<V>, qs: seq<string>)
    ensures ByLastUse(parse, qs, Latest(parse, qs)) && Distinct(Latest(parse, qs))
  {
    hide Without, Distinct, Descending, Parses;
    if qs == [] {
      NoneDescend(qs);
    } else {
      var n := |qs| - 1;
      var q := qs[n];
      LatestByLastUse(parse, qs[..n]);
      var earlier := Latest(parse, qs[..n]);
      assert forall k :: k in qs <==> k in qs[..n] || k == q;
      if Parses(parse, q) {
        WithoutIs(earlier, q);
        WithoutKeepsOrder(qs[..n], earlier, q);
        DescendMore(qs, Without(earlier, q));
        FrontDescends(qs, Without(earlier, q));
      } else {
        DescendMore(qs, earlier);
      }
    }
  }

  lemma NoneDescend(qs: seq<string>)
    ensures Descending(qs, []) && Distinct([])
  {
  }

  /** A last query that is not in the list does not matter. */
  lemma DescendMore(qs: seq<string>, order: seq<string>)
    requires qs != [] && Descending(qs[..|qs| - 1], order) && qs[|qs| - 1] !in order
    ensures Descending(qs, order)
  {
    forall i | 0 <= i < |order| ensures LastUse(qs, order[i]) == LastUse(qs[..|qs| - 1], order[i]) {
      assert order[i] in order;
    }
    hide LastUse;
  }

  lemma FrontDescends(qs: seq<string>, order: seq<string>)
    requires qs != [] && Descending(qs, order) && Distinct(order) && qs[|qs| - 1] !in order
    ensures Descending(qs, [qs[|qs| - 1]] + order) && Distinct([qs[|qs| - 1]] + order)
  {
    var q := qs[|qs| - 1];
    var r := [q] + order;
    forall j | 0 < j < |r| ensures r[j] != q && LastUse(qs, q) > LastUse(qs, r[j]) {
      assert r[j] == order[j - 1] && r[j] in order;
    }
  }

  /** After any trace the cache holds the last `capacity` distinct queries that parse, the latest first,
      each with its parsed statement. */
  lemma {:induction false} TraceKeepsLatest<V>(capacity: nat, parse: string -> Option<V>, qs: seq<string>)
    requires capacity > 0
    ensures var r := Trace(capacity, parse, qs);
      && r.order == Top(Latest(parse, qs), capacity)
      && (forall q :: q in r.held <==> q in r.order)
      && (forall q :: q in r.held ==> parse(q) == Some(r.held[q]))
  {
    if qs != [] {
      var n := |qs| - 1;
      var q := qs[n];
      TraceKeepsLatest(capacity, parse, qs[..n]);
      LatestByLastUse(parse, qs[..n]);
      ServeKeepsLatest(Trace(capacity, parse, qs[..n]), Latest(parse, qs[..n]), capacity, parse, q);
    }
  }

  lemma ServeKeepsLatest<V>(r: Recency<V>, all: seq<string>, capacity: nat, parse: string -> Option<V>, q: string)
    requires capacity > 0 && Distinct(all) && r.order == Top(all, capacity)
    requires forall k :: k in r.held <==> k in r.order
    requires forall k :: k in r.held ==> parse(k) == Some(r.held[k])
    ensures var r1 := Serve(r, capacity, parse, q);
      && r1.order == Top(if Parses(parse, q) then ToFront(all, q) else all, capacity)
      && (forall k :: k in r1.held <==> k in r1.order)
      && (forall k :: k in r1.held ==> parse(k) == Some(r1.held[k]))
  {
    hide Top, Without, Distinct;
    if q in r.held {
      HitKeepsTop(all, q, capacity);
      TopDistinct(all, capacity);
      WithoutIs(r.order, q);
    } else if Parses(parse, q) {
      TopDistinct(all, capacity);
      MissKeepsTop(all, q, capacity);
      PutKeepsHeld(r, capacity, q, parse(q).value);
    }
  }

  lemma TopDistinct(all: seq<string>, capacity: nat)
    requires Distinct(all)
    ensures Distinct(Top(all, capacity))
  {
  }

  lemma HitKeepsTop(all: seq<string>, q: string, capacity: nat)
    requires capacity > 0 && Distinct(all) && q in Top(all, capacity)
    ensures Top(ToFront(all, q), capacity) == ToFront(Top(all, capacity), q)
  {
    hide Without, Distinct;
    TopWithout(all, q, capacity);
    TopCons(q, Without(all, q), capacity);
  }

  lemma TopCons(q: string, rest: seq<string>, capacity: nat)
    requires capacity > 0
    ensures Top([q] + rest, capacity) == [q] + Top(rest, capacity - 1)
  {
  }

  lemma MissKeepsTop(all: seq<string>, q: string, capacity: nat)
    requires capacity > 0 && q !in Top(all, capacity)
    ensures Top(ToFront(all, q), capacity) == Pushed(Top(all, capacity), capacity, q)
  {
    hide Without;
    TopWithoutLater(all, q, capacity);
    TopCons(q, Without(all, q), capacity);
  }

  /** A new key in front; the last one leaves when there is no room. */
  function Pushed(order: seq<string>, capacity: nat, q: string): seq<string> {
    [q] + if |order| >= capacity && order != [] then order[..|order| - 1] else order
  }

  lemma PutKeepsHeld<V>(r: Recency<V>, capacity: nat, q: string, v: V)
    requires q !in r.held && Distinct(r.order) && forall k :: k in r.held <==> k in r.order
    ensures var r1 := Put(r, capacity, q, v);
      && r1.order == Pushed(r.order, capacity, q)
      && (forall k :: k in r1.held <==> k in r1.order)
      && (forall k :: k in r1.held ==> k == q || (k in r.held && r1.held[k] == r.held[k]))
      && r1.held[q] == v
  {
    hide Without;
    if |r.order| >= capacity && r.order != [] {
      var last := |r.order| - 1;
      assert forall k :: k in r.order <==> k in r.order[..last] || k == r.order[last];
      assert forall i :: 0 <= i < last ==> r.order[..last][i] == r.order[i] != r.order[last];
    }
  }

  /** The inclusion property: on the same trace a smaller cache's list is a prefix of a larger one's, so
      whatever the smaller cache finds the larger one finds too. */
  lemma SmallerIsPrefix<V>(small: nat, large: nat, parse: string -> Option<V>, qs: seq<string>)
    requires 0 < small <= large
    ensures Trace(small, parse, qs).order <= Trace(large, parse, qs).order
    ensures forall q :: q in Trace(small, parse, qs).held ==>
      q in Trace(large, parse, qs).held && Trace(small, parse, qs).held[q] == Trace(large, parse, qs).held[q]
  {
    TraceKeepsLatest(small, parse, qs);
    TraceKeepsLatest(large, parse, qs);
    var all := Latest(parse, qs);
    assert Top(all, small) <= Top(all, large);
  }
}
