/** MATCH (executor.cpp): how the first node of a path is found, and how every further relationship
    extends the list of ends. The lists are shown to enumerate the walks of the graph. */
module Matching {
  import opened Bytes
  import opened Ast
  import opened Store
  import opened PropertyIndex
  import opened Runs
  import opened RunResults
  import opened LabelScans

  datatype Binding = Binding(properties: map<string, string>, isString: map<string, bool>)

  /** The executor's symbol tables. */
  datatype Env = Env(context: map<string, seq<u64>>, labels: map<string, string>, unwind: map<string, Binding>)

  function Bound(env: Env, x: string): seq<u64> {
    if x in env.context then env.context[x] else []
  }

  // ---- sorted id lists ----

  function Insert(ids: seq<u64>, x: u64): seq<u64> {
    if ids == [] || x <= ids[0] then [x] + ids else [ids[0]] + Insert(ids[1..], x)
  }

  /** `std::sort`. */
  function Sort(ids: seq<u64>): seq<u64> {
    if ids == [] then [] else Insert(Sort(ids[1..]), ids[0])
  }

  /** `std::set_intersection` of two sorted lists. */
  function Intersect(a: seq<u64>, b: seq<u64>): seq<u64>
    decreases |a| + |b|
  {
    if a == [] || b == [] then []
    else if a[0] < b[0] then Intersect(a[1..], b)
    else if b[0] < a[0] then Intersect(a, b[1..])
    else [a[0]] + Intersect(a[1..], b[1..])
  }

  predicate Sorted(ids: seq<u64>) {
    forall i, j :: 0 <= i < j < |ids| ==> ids[i] <= ids[j]
  }

  lemma {:induction false} InsertSorted(ids: seq<u64>, x: u64)
    requires Sorted(ids)
    ensures Sorted(Insert(ids, x))
    ensures forall y :: y in Insert(ids, x) <==> y == x || y in ids
  {
    if ids != [] {
      assert forall y :: y in ids <==> y == ids[0] || y in ids[1..];
      InsertSorted(ids[1..], x);
      var r := Insert(ids[1..], x);
      assert forall i :: 0 <= i < |ids[1..]| ==> ids[1..][i] == ids[i + 1];
      forall i | 0 <= i < |r| && x > ids[0] ensures ids[0] <= r[i] { assert r[i] in r; }
    }
  }

  lemma {:induction false} SortSorts(ids: seq<u64>)
    ensures Sorted(Sort(ids)) && forall x :: x in Sort(ids) <==> x in ids
  {
    if ids != [] {
      SortSorts(ids[1..]);
      InsertSorted(Sort(ids[1..]), ids[0]);
      assert forall y :: y in ids <==> y == ids[0] || y in ids[1..];
    }
  }

  lemma {:induction false} IntersectMembers(a: seq<u64>, b: seq<u64>)
    requires Sorted(a) && Sorted(b)
    ensures forall x :: x in Intersect(a, b) <==> x in a && x in b
    ensures Sorted(Intersect(a, b))
    decreases |a| + |b|
  {
    if a != [] && b != [] {
      assert forall x :: x in a <==> x == a[0] || x in a[1..];
      assert forall x :: x in b <==> x == b[0] || x in b[1..];
      assert forall x :: x in a ==> a[0] <= x;
      assert forall x :: x in b ==> b[0] <= x;
      if a[0] < b[0] {
        IntersectMembers(a[1..], b);
      } else if b[0] < a[0] {
        IntersectMembers(a, b[1..]);
      } else {
        IntersectMembers(a[1..], b[1..]);
        var r := Intersect(a[1..], b[1..]);
        forall i | 0 <= i < |r| ensures a[0] <= r[i] { assert r[i] in r && r[i] in a; }
      }
    }
  }

  // ---- the first node ----

  predicate AllLiterals(props: seq<Prop<Lit>>) {
    forall i :: 0 <= i < |props| ==> props[i].value.Literal?
  }

  /** The index lists of all inline properties, sorted and intersected. */
  function IndexedIds(stod: Stod, d: Db, lbl: string, props: seq<Prop<Lit>>): seq<u64>
    requires AllLiterals(props) && props != []
  {
    var n := |props| - 1;
    var last := Sort(NodesByProperty(stod, d, lbl, props[n].key, props[n].value.lit.text));
    if n == 0 then last else Intersect(IndexedIds(stod, d, lbl, props[..n]), last)
  }

  /** The inline property test of the label scan: only literals are compared. */
  predicate InlineMatch(text: string, props: seq<Prop<Lit>>) {
    forall i :: 0 <= i < |props| && props[i].value.Literal? ==>
      Json.GetValue(text, props[i].key) == props[i].value.lit.text
  }

  function KeepInline(d: Db, ids: seq<u64>, props: seq<Prop<Lit>>): seq<u64> {
    if ids == [] then [] else
    var id := ids[|ids| - 1];
    KeepInline(d, ids[..|ids| - 1], props)
    + if ToKey(id) in d.nodes && InlineMatch(NodeText(d, id), props) then [id] else []
  }

  function ScannedIds(d: Db, node: Node<Lit>): seq<u64> {
    var ids := IteratedByLabel(d, node.lbl);
    if node.properties == [] then ids else KeepInline(d, ids, node.properties)
  }

  function BindNode(env: Env, node: Node<Lit>, ids: seq<u64>): Env {
    env.(context := env.context[node.variable := ids], labels := env.labels[node.variable := node.lbl])
  }

  function MatchFirst(stod: Stod, d: Db, env: Env, node: Node<Lit>): Env {
    if node.lbl == "" then env
    else if node.properties != [] && AllLiterals(node.properties) then
      if node.variable == "" then env
      else BindNode(env, node, IndexedIds(stod, d, node.lbl, node.properties))
    else
      var ids := ScannedIds(d, node);
      if node.variable == "" || ids == [] then env else BindNode(env, node, ids)
  }

  // ---- hops ----

  /** One relationship and the label wanted at its far end. */
  datatype HopSpec = HopSpec(outgoing: bool, kind: string, lbl: string)

  function HopOf(rel: Rel<Lit>, next: Node<Lit>): HopSpec {
    HopSpec(rel.direction != "<-", rel.kind, next.lbl)
  }

  datatype Arc = Arc(edge: u64, end: u64)

  function Candidates(d: Db, src: u64, h: HopSpec): seq<u64> {
    if h.outgoing then OutgoingEdges(d, src) else IncomingEdges(d, src)
  }

  /** Where an edge leads, if it is there and fits. */
  function Follow(d: Db, e: u64, h: HopSpec): Option<u64> {
    match GetEdge(d, e)
    case None => None
    case Some(edge) =>
      if h.kind != "" && edge.lbl != h.kind then None else
      var end := if h.outgoing then edge.target else edge.source;
      if h.lbl != "" && end !in NodesByLabel(d, h.lbl) then None else Some(end)
  }

  function ArcsAlong(d: Db, es: seq<u64>, h: HopSpec): seq<Arc> {
    if es == [] then [] else
    var e := es[|es| - 1];
    ArcsAlong(d, es[..|es| - 1], h)
    + match Follow(d, e, h) case None => [] case Some(end) => [Arc(e, end)]
  }

  function HopArcs(d: Db, srcs: seq<u64>, h: HopSpec): seq<Arc> {
    if srcs == [] then [] else
    HopArcs(d, srcs[..|srcs| - 1], h) + ArcsAlong(d, Candidates(d, srcs[|srcs| - 1], h), h)
  }

  function Ends(arcs: seq<Arc>): (ids: seq<u64>)
    ensures |ids| == |arcs|
  {
    seq(|arcs|, i requires 0 <= i < |arcs| => arcs[i].end)
  }

  function Edges(arcs: seq<Arc>): (ids: seq<u64>)
    ensures |ids| == |arcs|
  {
    seq(|arcs|, i requires 0 <= i < |arcs| => arcs[i].edge)
  }

  /** The symbol tables after one relationship: the relationship variable grows, the next node's
      variable is set. */
  function BindHop(env: Env, rel: Rel<Lit>, next: Node<Lit>, arcs: seq<Arc>): Env {
    var e1 := if rel.variable == "" || arcs == [] then env
              else env.(context := env.context[rel.variable := Bound(env, rel.variable) + Edges(arcs)]);
    if next.variable == "" then e1
    else e1.(context := e1.context[next.variable := Ends(arcs)],
             labels := if next.lbl == "" then e1.labels else e1.labels[next.variable := next.lbl])
  }

  function MatchHop(d: Db, env: Env, path: Path<Lit>, i: nat): Env
    requires i + 1 < |path|
  {
    var elem, next := path[i], path[i + 1].node;
    var x := elem.node.variable;
    if elem.rel.None? || x == "" || x !in env.context then env
    else BindHop(env, elem.rel.value, next, HopArcs(d, env.context[x], HopOf(elem.rel.value, next)))
  }

  /** The first n relationships. */
  function MatchHops(d: Db, env: Env, path: Path<Lit>, n: nat): Env
    requires n == 0 || n < |path|
  {
    if n == 0 then env else MatchHop(d, MatchHops(d, env, path, n - 1), path, n - 1)
  }

  function MatchPath(stod: Stod, d: Db, env: Env, path: Path<Lit>): Env {
    if path == [] then env
    else MatchHops(d, MatchFirst(stod, d, env, path[0].node), path, |path| - 1)
  }

  function MatchPaths(stod: Stod, d: Db, env: Env, paths: seq<Path<Lit>>): Env {
    if paths == [] then env
    else MatchPath(stod, d, MatchPaths(stod, d, env, paths[..|paths| - 1]), paths[|paths| - 1])
  }

  // ---- walks, said without indexes ----

  /** A walk starts at a position of the start list and takes one edge per hop. */
  datatype Walk = Walk(start: nat, edges: seq<u64>)

  predicate HasLabel(w: World, id: u64, lbl: string) {
    lbl == "" || (id in w.labels && w.labels[id] == lbl)
  }

  /** The node edge e leads to from `at`, None if e is deleted, elsewhere, of the wrong type or ends at
      the wrong label. */
  function Across(w: World, at: u64, e: u64, h: HopSpec): Option<u64> {
    if e !in w.edges || e in w.deletedEdges then None else
    var edge := w.edges[e];
    var (near, far) := if h.outgoing then (edge.source, edge.target) else (edge.target, edge.source);
    if near == at && (h.kind == "" || edge.lbl == h.kind) && HasLabel(w, far, h.lbl) then Some(far) else None
  }

  function Arrival(w: World, at: u64, hops: seq<HopSpec>, edges: seq<u64>): Option<u64>
    requires |edges| == |hops|
  {
    if hops == [] then Some(at) else
    var n := |hops| - 1;
    match Arrival(w, at, hops[..n], edges[..n])
    case None => None
    case Some(mid) => Across(w, mid, edges[n], hops[n])
  }

  predicate IsWalk(w: World, srcs: seq<u64>, hops: seq<HopSpec>, k: Walk) {
    && k.start < |srcs| && |k.edges| == |hops|
    && Arrival(w, srcs[k.start], hops, k.edges).Some?
  }

  function EndOf(w: World, srcs: seq<u64>, hops: seq<HopSpec>, k: Walk): u64
    requires IsWalk(w, srcs, hops, k)
  {
    Arrival(w, srcs[k.start], hops, k.edges).value
  }

  /** `walks` lists every walk once, and `ends` the node each arrives at, position by position. */
  ghost predicate Enumerates(w: World, srcs: seq<u64>, hops: seq<HopSpec>, walks: seq<Walk>, ends: seq<u64>) {
    && Distinct(walks)
    && (forall k :: k in walks <==> IsWalk(w, srcs, hops, k))
    && |ends| == |walks|
    && forall i :: 0 <= i < |walks| ==> IsWalk(w, srcs, hops, walks[i]) && ends[i] == EndOf(w, srcs, hops, walks[i])
  }

  /** The ends after all hops, as the executor computes them. */
  function EndsAfter(d: Db, srcs: seq<u64>, hops: seq<HopSpec>): seq<u64> {
    if hops == [] then srcs
    else Ends(HopArcs(d, EndsAfter(d, srcs, hops[..|hops| - 1]), hops[|hops| - 1]))
  }

  // ---- one hop ----

  ghost predicate LabelsExact(w: World, hops: seq<HopSpec>) {
    forall i :: 0 <= i < |hops| && hops[i].lbl != "" ==> ScanExact(w, hops[i].lbl)
  }

  /** The edges the executor follows from a node are the ones that lead across. */
  lemma FollowIsAcross(stod: Stod, w: World, at: u64, h: HopSpec)
    requires Inv(stod, w) && (h.lbl != "" ==> ScanExact(w, h.lbl))
    ensures Distinct(Candidates(w.db, at, h))
    ensures forall e :: e in Candidates(w.db, at, h) ==> Follow(w.db, e, h) == Across(w, at, e, h)
    ensures forall e :: e !in Candidates(w.db, at, h) ==> Across(w, at, e, h) == None
  {
    hide Inv, OutgoingEdges, IncomingEdges, NodesByLabel, IteratedByLabel, GetEdge;
    AdjacencyOf(stod, w, at);
  }

  lemma {:induction false} ArcsAlongAre(stod: Stod, w: World, at: u64, es: seq<u64>, h: HopSpec)
    requires Distinct(es) && forall e :: e in es ==> Follow(w.db, e, h) == Across(w, at, e, h)
    ensures var arcs := ArcsAlong(w.db, es, h);
      && (forall i :: 0 <= i < |arcs| ==> arcs[i].edge in es && Across(w, at, arcs[i].edge, h) == Some(arcs[i].end))
      && (forall e :: e in es && Across(w, at, e, h).Some? ==> e in Edges(arcs))
      && Distinct(Edges(arcs))
  {
    hide Follow, Across;
    if es != [] {
      var n := |es| - 1;
      assert forall e :: e in es <==> e in es[..n] || e == es[n];
      ArcsAlongAre(stod, w, at, es[..n], h);
      var before := ArcsAlong(w.db, es[..n], h);
      var arcs := ArcsAlong(w.db, es, h);
      assert es[n] !in es[..n];
      assert forall i :: 0 <= i < |before| ==> Edges(before)[i] == before[i].edge;
      if Follow(w.db, es[n], h).Some? {
        assert Edges(arcs) == Edges(before) + [es[n]];
        assert forall e :: e in Edges(arcs) <==> e in Edges(before) || e == es[n];
      } else {
        assert arcs == before;
      }
    }
  }

  /** The walks that continue walk k over the arcs. */
  function Extend(k: Walk, arcs: seq<Arc>): (ks: seq<Walk>)
    ensures |ks| == |arcs|
  {
    seq(|arcs|, i requires 0 <= i < |arcs| => Walk(k.start, k.edges + [arcs[i].edge]))
  }

  /** The walks after one more hop, in the order the nested loops find their ends. */
  function ExtendAll(d: Db, walks: seq<Walk>, ends: seq<u64>, h: HopSpec): seq<Walk>
    requires |walks| == |ends|
  {
    if walks == [] then [] else
    var n := |walks| - 1;
    ExtendAll(d, walks[..n], ends[..n], h)
    + Extend(walks[n], ArcsAlong(d, Candidates(d, ends[n], h), h))
  }

  function Base(k: Walk): Walk {
    if k.edges == [] then k else Walk(k.start, k.edges[..|k.edges| - 1])
  }

  lemma ExtendIs(stod: Stod, w: World, k: Walk, at: u64, h: HopSpec)
    requires Inv(stod, w) && (h.lbl != "" ==> ScanExact(w, h.lbl))
    ensures var arcs := ArcsAlong(w.db, Candidates(w.db, at, h), h);
            var ks := Extend(k, arcs);
      && Distinct(ks)
      && (forall j :: 0 <= j < |ks| ==>
            (&& ks[j] == Walk(k.start, k.edges + [arcs[j].edge]) && Base(ks[j]) == k
             && Across(w, at, arcs[j].edge, h) == Some(arcs[j].end)))
      && (forall e :: Across(w, at, e, h).Some? ==> Walk(k.start, k.edges + [e]) in ks)
  {
    hide Inv, ScanExact, Candidates, Across, Follow, ArcsAlong;
    FollowIsAcross(stod, w, at, h);
    var es := Candidates(w.db, at, h);
    ArcsAlongAre(stod, w, at, es, h);
    var arcs := ArcsAlong(w.db, es, h);
    var ks := Extend(k, arcs);
    forall i, j | 0 <= i < j < |ks| ensures ks[i] != ks[j] {
      assert Edges(arcs)[i] != Edges(arcs)[j];
      assert ks[i].edges[|k.edges|] == arcs[i].edge && ks[j].edges[|k.edges|] == arcs[j].edge;
    }
    forall e | Across(w, at, e, h).Some? ensures Walk(k.start, k.edges + [e]) in ks {
      var i :| 0 <= i < |arcs| && Edges(arcs)[i] == e;
      assert ks[i] == Walk(k.start, k.edges + [e]);
    }
    forall j | 0 <= j < |ks| ensures Base(ks[j]) == k {
      assert (k.edges + [arcs[j].edge])[..|k.edges|] == k.edges;
    }
  }

  /** Every listed walk is one of `walks` followed by an edge that leads from its end to the listed end;
      nothing is listed twice and nothing is missing. */
  ghost predicate OneHopOn(w: World, walks: seq<Walk>, ends: seq<u64>, h: HopSpec, walks': seq<Walk>, ends': seq<u64>)
  {
    && |walks| == |ends| && |walks'| == |ends'| && Distinct(walks')
    && (forall j :: 0 <= j < |walks'| ==> ExtendsSome(w, walks, ends, h, walks'[j], ends'[j]))
    && (forall i, e :: 0 <= i < |walks| && Across(w, ends[i], e, h).Some? ==>
          Walk(walks[i].start, walks[i].edges + [e]) in walks')
  }

  ghost predicate ExtendsSome(w: World, walks: seq<Walk>, ends: seq<u64>, h: HopSpec, k: Walk, end: u64)
    requires |walks| == |ends|
  {
    exists i :: 0 <= i < |walks| && ExtendsOne(w, walks[i], ends[i], h, k, end)
  }

  predicate ExtendsOne(w: World, k0: Walk, at: u64, h: HopSpec, k: Walk, end: u64) {
    && k.edges != [] && Base(k) == k0
    && Across(w, at, k.edges[|k.edges| - 1], h) == Some(end)
  }

  lemma {:induction false} ExtendAllIs(stod: Stod, w: World, walks: seq<Walk>, ends: seq<u64>, h: HopSpec)
    requires Inv(stod, w) && (h.lbl != "" ==> ScanExact(w, h.lbl))
    requires |walks| == |ends| && Distinct(walks)
    ensures OneHopOn(w, walks, ends, h, ExtendAll(w.db, walks, ends, h), Ends(HopArcs(w.db, ends, h)))
    decreases |walks|
  {
    hide Inv, ScanExact, Candidates, ArcsAlong, Across, Extend;
    if walks != [] {
      var n := |walks| - 1;
      ExtendAllIs(stod, w, walks[..n], ends[..n], h);
      ExtendIs(stod, w, walks[n], ends[n], h);
      var arcs := ArcsAlong(w.db, Candidates(w.db, ends[n], h), h);
      JoinHops(w, walks, ends, h, ExtendAll(w.db, walks[..n], ends[..n], h), HopArcs(w.db, ends[..n], h),
               Extend(walks[n], arcs), arcs);
    }
  }

  /** The walks that extend the earlier walks and the ones that extend the last are different. */
  lemma JoinHops(w: World, walks: seq<Walk>, ends: seq<u64>, h: HopSpec,
                 ks: seq<Walk>, arcs: seq<Arc>, ks': seq<Walk>, arcs': seq<Arc>)
    requires walks != [] && |walks| == |ends| && Distinct(walks)
    requires OneHopOn(w, walks[..|walks| - 1], ends[..|walks| - 1], h, ks, Ends(arcs))
    requires |ks'| == |arcs'| && Distinct(ks')
    requires forall j :: 0 <= j < |ks'| ==> ExtendsOne(w, walks[|walks| - 1], ends[|walks| - 1], h, ks'[j], arcs'[j].end)
    requires forall e :: Across(w, ends[|walks| - 1], e, h).Some? ==>
      Walk(walks[|walks| - 1].start, walks[|walks| - 1].edges + [e]) in ks'
    ensures OneHopOn(w, walks, ends, h, ks + ks', Ends(arcs + arcs'))
  {
    hide Across;
    var n := |walks| - 1;
    var all, allEnds := ks + ks', Ends(arcs + arcs');
    forall j | 0 <= j < |all| ensures ExtendsSome(w, walks, ends, h, all[j], allEnds[j]) {
      if j < |ks| {
        var i :| 0 <= i < n && ExtendsOne(w, walks[..n][i], ends[..n][i], h, ks[j], Ends(arcs)[j]);
        assert ExtendsOne(w, walks[i], ends[i], h, all[j], allEnds[j]);
      } else {
        assert ExtendsOne(w, walks[n], ends[n], h, all[j], allEnds[j]);
      }
    }
    forall i, j | 0 <= i < j < |all| ensures all[i] != all[j] {
      if i < |ks| <= j {
        var x :| 0 <= x < n && ExtendsOne(w, walks[..n][x], ends[..n][x], h, ks[i], Ends(arcs)[i]);
        assert Base(all[i]) == walks[x] && Base(all[j]) == walks[n];
      }
    }
    forall i, e | 0 <= i < |walks| && Across(w, ends[i], e, h).Some?
      ensures Walk(walks[i].start, walks[i].edges + [e]) in all
    {
      if i < n {
        assert walks[..n][i] == walks[i] && ends[..n][i] == ends[i];
        assert Walk(walks[i].start, walks[i].edges + [e]) in ks;
      } else {
        assert Walk(walks[i].start, walks[i].edges + [e]) in ks';
      }
    }
  }

  // ---- all hops ----

  /** The walks in the order the executor's list has their ends. */
  function WalkList(d: Db, srcs: seq<u64>, hops: seq<HopSpec>): (ks: seq<Walk>)
    ensures |ks| == |EndsAfter(d, srcs, hops)|
  {
    if hops == [] then seq(|srcs|, (i: nat) => Walk(i, []))
    else
      var n := |hops| - 1;
      ExtendAllSize(d, WalkList(d, srcs, hops[..n]), EndsAfter(d, srcs, hops[..n]), hops[n]);
      ExtendAll(d, WalkList(d, srcs, hops[..n]), EndsAfter(d, srcs, hops[..n]), hops[n])
  }

  lemma {:induction false} ExtendAllSize(d: Db, walks: seq<Walk>, ends: seq<u64>, h: HopSpec)
    requires |walks| == |ends|
    ensures |ExtendAll(d, walks, ends, h)| == |HopArcs(d, ends, h)|
    decreases |walks|
  {
    if walks != [] { ExtendAllSize(d, walks[..|walks| - 1], ends[..|ends| - 1], h); }
  }

  /** Taking one more edge. */
  lemma ArrivalStep(w: World, at: u64, hops: seq<HopSpec>, edges: seq<u64>)
    requires hops != [] && |edges| == |hops|
    ensures var n := |hops| - 1;
      Arrival(w, at, hops, edges) == match Arrival(w, at, hops[..n], edges[..n])
                                     case None => None
                                     case Some(mid) => Across(w, mid, edges[n], hops[n])
  {
  }

  lemma EnumeratesStep(w: World, srcs: seq<u64>, hops: seq<HopSpec>, walks: seq<Walk>, ends: seq<u64>,
                       walks': seq<Walk>, ends': seq<u64>)
    requires hops != []
    requires Enumerates(w, srcs, hops[..|hops| - 1], walks, ends)
    requires OneHopOn(w, walks, ends, hops[|hops| - 1], walks', ends')
    ensures Enumerates(w, srcs, hops, walks', ends')
  {
    hide Arrival, Across, IsWalk, ExtendsOne, Distinct;
    var h := hops[|hops| - 1];
    forall j | 0 <= j < |walks'|
      ensures IsWalk(w, srcs, hops, walks'[j]) && ends'[j] == EndOf(w, srcs, hops, walks'[j])
    {
      var i :| 0 <= i < |walks| && ExtendsOne(w, walks[i], ends[i], h, walks'[j], ends'[j]);
      ExtendedIsWalk(w, srcs, hops, walks[i], ends[i], walks'[j], ends'[j]);
    }
    forall k | IsWalk(w, srcs, hops, k) ensures k in walks' {
      var e := WalkShortens(w, srcs, hops, k);
      var i :| 0 <= i < |walks| && walks[i] == Base(k);
      assert Across(w, ends[i], e, h).Some?;
    }
  }

  lemma ExtendedIsWalk(w: World, srcs: seq<u64>, hops: seq<HopSpec>, k0: Walk, at: u64, k: Walk, end: u64)
    requires hops != [] && IsWalk(w, srcs, hops[..|hops| - 1], k0)
    requires at == EndOf(w, srcs, hops[..|hops| - 1], k0) && ExtendsOne(w, k0, at, hops[|hops| - 1], k, end)
    ensures IsWalk(w, srcs, hops, k) && EndOf(w, srcs, hops, k) == end
  {
    hide Arrival, Across;
    ArrivalStep(w, srcs[k.start], hops, k.edges);
  }

  lemma WalkShortens(w: World, srcs: seq<u64>, hops: seq<HopSpec>, k: Walk) returns (e: u64)
    requires hops != [] && IsWalk(w, srcs, hops, k)
    ensures IsWalk(w, srcs, hops[..|hops| - 1], Base(k))
    ensures k == Walk(Base(k).start, Base(k).edges + [e])
    ensures Across(w, EndOf(w, srcs, hops[..|hops| - 1], Base(k)), e, hops[|hops| - 1]).Some?
  {
    hide Arrival, Across;
    ArrivalStep(w, srcs[k.start], hops, k.edges);
    e := k.edges[|k.edges| - 1];
    assert k.edges == k.edges[..|k.edges| - 1] + [e];
  }

  /** Multi-hop MATCH enumerates walks: the list it ends with has one entry per matching walk from the
      start list, namely the node that walk arrives at. */
  lemma {:induction false} HopsEnumerateWalks(stod: Stod, w: World, srcs: seq<u64>, hops: seq<HopSpec>)
    requires Inv(stod, w) && LabelsExact(w, hops)
    ensures Enumerates(w, srcs, hops, WalkList(w.db, srcs, hops), EndsAfter(w.db, srcs, hops))
    decreases |hops|
  {
    hide Inv, ScanExact;
    if hops == [] {
      forall k ensures k in WalkList(w.db, srcs, hops) <==> IsWalk(w, srcs, hops, k) {
        if IsWalk(w, srcs, hops, k) { assert WalkList(w.db, srcs, hops)[k.start] == k; }
      }
    } else {
      var n := |hops| - 1;
      var walks, ends := WalkList(w.db, srcs, hops[..n]), EndsAfter(w.db, srcs, hops[..n]);
      assert LabelsExact(w, hops[..n]) by { assert forall i :: 0 <= i < n ==> hops[..n][i] == hops[i]; }
      HopsEnumerateWalks(stod, w, srcs, hops[..n]);
      ExtendAllIs(stod, w, walks, ends, hops[n]);
      EnumeratesStep(w, srcs, hops, walks, ends, ExtendAll(w.db, walks, ends, hops[n]),
                     Ends(HopArcs(w.db, ends, hops[n])));
    }
  }

  // ---- what the clause binds ----

  /** Every node and relationship of the path has a name of its own; all but the first are new. */
  ghost predicate NamedPath(env: Env, path: Path<Lit>) {
    && path != [] && path[0].node.variable != ""
    && (forall i :: 0 <= i < |path| - 1 ==> path[i].rel.Some? && path[i].rel.value.variable != "")
    && (forall i :: 0 < i < |path| ==> path[i].node.variable != "" && path[i].node.variable !in env.context)
    && (forall i :: 0 <= i < |path| - 1 ==> path[i].rel.value.variable !in env.context)
    && (forall i, j :: 0 <= i < j < |path| ==> path[i].node.variable != path[j].node.variable)
    && (forall i, j :: 0 <= i < j < |path| - 1 ==> path[i].rel.value.variable != path[j].rel.value.variable)
    && (forall i, j :: 0 <= i < |path| - 1 && 0 <= j < |path| ==> path[i].rel.value.variable != path[j].node.variable)
  }

  /** The first variable is bound already. */
  ghost predicate NamedFresh(env: Env, path: Path<Lit>) {
    NamedPath(env, path) && path[0].node.variable in env.context
  }

  function PathHops(path: Path<Lit>, n: nat): (hops: seq<HopSpec>)
    requires n < |path| && forall i :: 0 <= i < |path| - 1 ==> path[i].rel.Some?
    ensures |hops| == n
  {
    seq(n, i requires 0 <= i < n => HopOf(path[i].rel.value, path[i + 1].node))
  }

  /** The edge taken and the end reached in hop n - 1. */
  function LastArcs(d: Db, srcs: seq<u64>, hops: seq<HopSpec>): seq<Arc>
    requires hops != []
  {
    HopArcs(d, EndsAfter(d, srcs, hops[..|hops| - 1]), hops[|hops| - 1])
  }

  /** After n hops: node i holds the ends of the first i hops, and relationship i holds the edges taken
      in hop i, aligned with the ends of that hop. */
  ghost predicate BoundAfter(d: Db, env: Env, path: Path<Lit>, n: nat, env': Env)
    requires n < |path| && NamedFresh(env, path)
  {
    var srcs := env.context[path[0].node.variable];
    && (forall i :: 0 <= i <= n ==> path[i].node.variable in env'.context)
    && (forall i :: 0 <= i <= n ==>
          env'.context[path[i].node.variable] == EndsAfter(d, srcs, PathHops(path, i)))
    && (forall i :: 0 <= i < n ==>
          Bound(env', path[i].rel.value.variable) == Edges(LastArcs(d, srcs, PathHops(path, i + 1))))
    && (forall i :: n < i < |path| ==> path[i].node.variable !in env'.context)
    && (forall i :: n <= i < |path| - 1 ==> path[i].rel.value.variable !in env'.context)
  }

  lemma PathHopsPrefix(path: Path<Lit>, n: nat)
    requires 0 < n < |path| && forall i :: 0 <= i < |path| - 1 ==> path[i].rel.Some?
    ensures PathHops(path, n)[..n - 1] == PathHops(path, n - 1)
    ensures PathHops(path, n)[n - 1] == HopOf(path[n - 1].rel.value, path[n].node)
  {
  }

  lemma {:induction false} HopsBind(d: Db, env: Env, path: Path<Lit>, n: nat)
    requires NamedFresh(env, path) && n < |path|
    ensures BoundAfter(d, env, path, n, MatchHops(d, env, path, n))
  {
    hide BoundAfter, NamedFresh, MatchHop;
    if n == 0 {
      BindNone(d, env, path);
    } else {
      HopsBind(d, env, path, n - 1);
      BindStep(d, env, path, n, MatchHops(d, env, path, n - 1));
    }
  }

  lemma BindNone(d: Db, env: Env, path: Path<Lit>)
    requires NamedFresh(env, path)
    ensures BoundAfter(d, env, path, 0, env)
  {
    hide HopArcs;
    assert PathHops(path, 0) == [];
  }

  /** What one hop changes in the context when its two variables are new. */
  lemma BindHopEffect(env: Env, rel: Rel<Lit>, next: Node<Lit>, arcs: seq<Arc>)
    requires rel.variable != "" && next.variable != "" && rel.variable != next.variable
    requires rel.variable !in env.context
    ensures var env' := BindHop(env, rel, next, arcs);
      && next.variable in env'.context && env'.context[next.variable] == Ends(arcs)
      && Bound(env', rel.variable) == Edges(arcs)
      && forall y :: y != rel.variable && y != next.variable ==>
           (y in env'.context <==> y in env.context) && Bound(env', y) == Bound(env, y)
  {
  }

  lemma BindStep(d: Db, env: Env, path: Path<Lit>, n: nat, before: Env)
    requires NamedFresh(env, path) && 0 < n < |path|
    requires BoundAfter(d, env, path, n - 1, before)
    ensures BoundAfter(d, env, path, n, MatchHop(d, before, path, n - 1))
  {
    hide HopArcs, EndsAfter, PathHops, Edges, Ends, BindHop;
    PathHopsPrefix(path, n);
    var srcs := env.context[path[0].node.variable];
    EndsAfterLast(d, srcs, PathHops(path, n));
    var rel, next := path[n - 1].rel.value, path[n].node;
    var arcs := LastArcs(d, srcs, PathHops(path, n));
    BindHopEffect(before, rel, next, arcs);
    var env' := MatchHop(d, before, path, n - 1);
    assert env' == BindHop(before, rel, next, arcs);
    forall i | 0 <= i < n
      ensures path[i].node.variable in env'.context
      ensures env'.context[path[i].node.variable] == EndsAfter(d, srcs, PathHops(path, i))
    {
      OtherVariable(env, path, i, n);
      assert Bound(env', path[i].node.variable) == Bound(before, path[i].node.variable);
    }
  }

  lemma OtherVariable(env: Env, path: Path<Lit>, i: nat, n: nat)
    requires NamedFresh(env, path) && i < n < |path|
    ensures path[i].node.variable != path[n - 1].rel.value.variable && path[i].node.variable != path[n].node.variable
  {
  }

  lemma EndsAfterLast(d: Db, srcs: seq<u64>, hops: seq<HopSpec>)
    requires hops != []
    ensures EndsAfter(d, srcs, hops) == Ends(LastArcs(d, srcs, hops))
  {
  }

  /** Edge e leads to the node `end` in a way that fits the hop. */
  predicate LeadsTo(w: World, e: u64, h: HopSpec, end: u64) {
    e in w.edges &&
    Across(w, if h.outgoing then w.edges[e].source else w.edges[e].target, e, h) == Some(end)
  }

  lemma {:induction false} HopArcsLead(stod: Stod, w: World, srcs: seq<u64>, h: HopSpec)
    requires Inv(stod, w) && (h.lbl != "" ==> ScanExact(w, h.lbl))
    ensures forall j :: 0 <= j < |HopArcs(w.db, srcs, h)| ==>
      LeadsTo(w, HopArcs(w.db, srcs, h)[j].edge, h, HopArcs(w.db, srcs, h)[j].end)
  {
    hide Inv, ScanExact, Follow, Candidates, ArcsAlong;
    if srcs != [] {
      var n := |srcs| - 1;
      HopArcsLead(stod, w, srcs[..n], h);
      FollowIsAcross(stod, w, srcs[n], h);
      ArcsAlongAre(stod, w, srcs[n], Candidates(w.db, srcs[n], h), h);
    }
  }

  /** Position by position, the list of relationship i holds the edge that leads to the node in the list
      of its hop's ends. */
  ghost predicate Aligned(w: World, env': Env, path: Path<Lit>, i: nat)
    requires i + 1 < |path| && path[i].rel.Some?
  {
    var es, ends := Bound(env', path[i].rel.value.variable), Bound(env', path[i + 1].node.variable);
    && |es| == |ends|
    && forall j :: 0 <= j < |es| ==> LeadsTo(w, es[j], HopOf(path[i].rel.value, path[i + 1].node), ends[j])
  }

  lemma BoundLists(d: Db, env: Env, path: Path<Lit>, env': Env, i: nat)
    requires NamedFresh(env, path) && BoundAfter(d, env, path, |path| - 1, env') && i + 1 < |path|
    ensures var arcs := LastArcs(d, env.context[path[0].node.variable], PathHops(path, i + 1));
      && Bound(env', path[i].rel.value.variable) == Edges(arcs)
      && Bound(env', path[i + 1].node.variable) == Ends(arcs)
  {
    hide HopArcs, EndsAfter, PathHops, Edges, Ends;
    EndsAfterLast(d, env.context[path[0].node.variable], PathHops(path, i + 1));
  }

  lemma AlignedIf(w: World, env': Env, path: Path<Lit>, i: nat, arcs: seq<Arc>)
    requires i + 1 < |path| && path[i].rel.Some?
    requires Bound(env', path[i].rel.value.variable) == Edges(arcs)
    requires Bound(env', path[i + 1].node.variable) == Ends(arcs)
    requires forall j :: 0 <= j < |arcs| ==>
      LeadsTo(w, arcs[j].edge, HopOf(path[i].rel.value, path[i + 1].node), arcs[j].end)
    ensures Aligned(w, env', path, i)
  {
    hide LeadsTo;
  }

  lemma LastArcsLead(stod: Stod, w: World, srcs: seq<u64>, hops: seq<HopSpec>)
    requires Inv(stod, w) && hops != [] && (hops[|hops| - 1].lbl != "" ==> ScanExact(w, hops[|hops| - 1].lbl))
    ensures var arcs := LastArcs(w.db, srcs, hops);
      forall j :: 0 <= j < |arcs| ==> LeadsTo(w, arcs[j].edge, hops[|hops| - 1], arcs[j].end)
  {
    hide Inv, ScanExact, LeadsTo, HopArcs, EndsAfter;
    HopArcsLead(stod, w, EndsAfter(w.db, srcs, hops[..|hops| - 1]), hops[|hops| - 1]);
  }

  lemma HopIs(path: Path<Lit>, i: nat)
    requires i + 1 < |path| && forall j :: 0 <= j < |path| - 1 ==> path[j].rel.Some?
    ensures PathHops(path, i + 1)[i] == HopOf(path[i].rel.value, path[i + 1].node) == PathHops(path, |path| - 1)[i]
  {
  }

  lemma HopAligned(stod: Stod, w: World, env: Env, path: Path<Lit>, env': Env, i: nat)
    requires Inv(stod, w) && NamedFresh(env, path) && LabelsExact(w, PathHops(path, |path| - 1))
    requires BoundAfter(w.db, env, path, |path| - 1, env') && i + 1 < |path|
    ensures Aligned(w, env', path, i)
  {
    hide Inv, ScanExact, BoundAfter, LastArcs, LeadsTo, PathHops, Aligned, Bound, HopOf;
    var srcs, hops := env.context[path[0].node.variable], PathHops(path, i + 1);
    HopIs(path, i);
    BoundLists(w.db, env, path, env', i);
    hide NamedFresh, NamedPath;
    LastArcsLead(stod, w, srcs, hops);
    AlignedIf(w, env', path, i, LastArcs(w.db, srcs, hops));
  }

  /** From a bound start the last variable enumerates the walks, and every relationship's list is aligned
      with the list of its hop's ends. */
  lemma HopsFromBound(stod: Stod, w: World, env: Env, path: Path<Lit>)
    requires Inv(stod, w) && NamedFresh(env, path) && LabelsExact(w, PathHops(path, |path| - 1))
    ensures PathEnumerates(w, env.context[path[0].node.variable], path, MatchHops(w.db, env, path, |path| - 1))
  {
    var srcs := env.context[path[0].node.variable];
    hide Inv, LabelsExact, Enumerates, WalkList, MatchHops, Aligned;
    var env' := MatchHops(w.db, env, path, |path| - 1);
    HopsBind(w.db, env, path, |path| - 1);
    HopsEnumerateWalks(stod, w, srcs, PathHops(path, |path| - 1));
    forall i | 0 <= i < |path| - 1 ensures Aligned(w, env', path, i) {
      HopAligned(stod, w, env, path, env', i);
    }
  }

  /** The last variable has one entry per matching walk from the start list, namely the node the walk
      arrives at, and the relationships' lists are aligned with their hops' ends. */
  ghost predicate PathEnumerates(w: World, srcs: seq<u64>, path: Path<Lit>, env': Env)
    requires path != [] && forall i :: 0 <= i < |path| - 1 ==> path[i].rel.Some?
  {
    var hops := PathHops(path, |path| - 1);
    && Enumerates(w, srcs, hops, WalkList(w.db, srcs, hops), Bound(env', path[|path| - 1].node.variable))
    && forall i :: 0 <= i < |path| - 1 ==> Aligned(w, env', path, i)
  }

  /** Where a path starts: the index lists or the scan for a labelled node, and what the variable was bound
      to for one without a label or whose scan finds nothing. */
  function StartIds(stod: Stod, d: Db, env: Env, node: Node<Lit>): seq<u64> {
    if node.lbl == "" then Bound(env, node.variable)
    else if node.properties != [] && AllLiterals(node.properties) then IndexedIds(stod, d, node.lbl, node.properties)
    else if ScannedIds(d, node) == [] then Bound(env, node.variable)
    else ScannedIds(d, node)
  }

  lemma StartIsBound(stod: Stod, d: Db, env: Env, node: Node<Lit>)
    requires node.variable != ""
    ensures var env1 := MatchFirst(stod, d, env, node);
      && Bound(env1, node.variable) == StartIds(stod, d, env, node)
      && forall y :: y != node.variable ==> (y in env1.context <==> y in env.context)
  {
    hide IndexedIds, ScannedIds;
  }

  /** A path whose first variable is still unbound binds nothing. */
  lemma {:induction false} UnboundHops(d: Db, env: Env, path: Path<Lit>, n: nat)
    requires NamedPath(env, path) && path[0].node.variable !in env.context && n < |path|
    ensures MatchHops(d, env, path, n) == env
  {
    if n > 0 { UnboundHops(d, env, path, n - 1); }
  }

  lemma {:induction false} NoEndsFromNowhere(d: Db, hops: seq<HopSpec>)
    ensures EndsAfter(d, [], hops) == []
    decreases |hops|
  {
    if hops != [] { NoEndsFromNowhere(d, hops[..|hops| - 1]); }
  }

  lemma NothingEnumerated(stod: Stod, w: World, env: Env, path: Path<Lit>)
    requires Inv(stod, w) && NamedPath(env, path) && LabelsExact(w, PathHops(path, |path| - 1))
    requires path[0].node.variable !in env.context
    ensures PathEnumerates(w, [], path, env)
  {
    hide Inv, LabelsExact, Enumerates, WalkList, LeadsTo;
    NoEndsFromNowhere(w.db, PathHops(path, |path| - 1));
    HopsEnumerateWalks(stod, w, [], PathHops(path, |path| - 1));
  }

  /** The statement about the executor: after matching a path of named elements, all new but perhaps the
      first, the last variable enumerates the walks from the start list and every relationship's list is
      aligned with the list of its hop's ends. The start may be bound, labelled, or neither. */
  lemma MatchEnumeratesWalks(stod: Stod, w: World, env: Env, path: Path<Lit>)
    requires Inv(stod, w) && NamedPath(env, path) && LabelsExact(w, PathHops(path, |path| - 1))
    ensures PathEnumerates(w, StartIds(stod, w.db, env, path[0].node), path, MatchPath(stod, w.db, env, path))
  {
    hide Inv, LabelsExact, PathEnumerates, MatchFirst, StartIds, MatchHops, PathHops;
    var env1 := MatchFirst(stod, w.db, env, path[0].node);
    StartIsBound(stod, w.db, env, path[0].node);
    assert NamedPath(env1, path);
    if path[0].node.variable in env1.context {
      HopsFromBound(stod, w, env1, path);
    } else {
      UnboundHops(w.db, env1, path, |path| - 1);
      NothingEnumerated(stod, w, env1, path);
    }
  }

  // ---- the labels variables are bound with ----

  function LabelBound(env: Env, x: string): Option<string> {
    if x in env.labels then Some(env.labels[x]) else None
  }

  /** The variable carries the label the pattern asks for; where it asks for none, nothing changes. */
  ghost predicate Carries(env: Env, env': Env, node: Node<Lit>) {
    LabelBound(env', node.variable) == if node.lbl == "" then LabelBound(env, node.variable) else Some(node.lbl)
  }

  lemma HopCarries(d: Db, before: Env, path: Path<Lit>, n: nat)
    requires 0 < n < |path| && path[n - 1].rel.Some? && path[n].node.variable != ""
    requires path[n - 1].node.variable != "" && path[n - 1].node.variable in before.context
    ensures var env' := MatchHop(d, before, path, n - 1);
      && Carries(before, env', path[n].node)
      && forall y :: y != path[n].node.variable ==> LabelBound(env', y) == LabelBound(before, y)
  {
    hide HopArcs, Ends, Edges;
  }

  ghost predicate CarriedUpTo(env: Env, env': Env, path: Path<Lit>, n: nat)
    requires n < |path|
  {
    && (forall i :: 1 <= i <= n ==> Carries(env, env', path[i].node))
    && (forall x :: (forall i :: 1 <= i <= n ==> path[i].node.variable != x) ==> LabelBound(env', x) == LabelBound(env, x))
  }

  lemma CarriedOneMore(env: Env, before: Env, env': Env, path: Path<Lit>, n: nat)
    requires NamedPath(env, path) && 0 < n < |path| && CarriedUpTo(env, before, path, n - 1)
    requires Carries(before, env', path[n].node)
    requires forall y :: y != path[n].node.variable ==> LabelBound(env', y) == LabelBound(before, y)
    ensures CarriedUpTo(env, env', path, n)
  {
    hide LabelBound;
    assert forall i :: 1 <= i < n ==> path[i].node.variable != path[n].node.variable;
    assert LabelBound(before, path[n].node.variable) == LabelBound(env, path[n].node.variable);
  }

  lemma BoundSoFar(d: Db, env: Env, path: Path<Lit>, n: nat)
    requires NamedFresh(env, path) && n + 1 < |path|
    ensures path[n].node.variable in MatchHops(d, env, path, n).context && path[n].node.variable != ""
    ensures path[n].rel.Some? && path[n + 1].node.variable != ""
  {
    hide MatchHops, EndsAfter, LastArcs, PathHops, Bound;
    HopsBind(d, env, path, n);
  }

  lemma {:induction false} HopsCarry(d: Db, env: Env, path: Path<Lit>, n: nat)
    requires NamedFresh(env, path) && n < |path|
    ensures CarriedUpTo(env, MatchHops(d, env, path, n), path, n)
  {
    hide MatchHop, Carries, LabelBound, CarriedUpTo, NamedPath;
    if n == 0 {
      assert path != [];
      NothingCarried(env, path);
    } else {
      var before := MatchHops(d, env, path, n - 1);
      HopsCarry(d, env, path, n - 1);
      BoundSoFar(d, env, path, n - 1);
      HopCarries(d, before, path, n);
      CarriedOneMore(env, before, MatchHops(d, env, path, n), path, n);
    }
  }

  lemma NothingCarried(env: Env, path: Path<Lit>)
    requires path != []
    ensures CarriedUpTo(env, env, path, 0)
  {
  }

  /** After MATCH every node variable that is bound carries its label in the pattern, and SET and WHERE
      therefore use the index under that label. Only the first can carry another: if it was bound before
      and the scan for its label finds nothing. */
  lemma MatchCarries(stod: Stod, d: Db, env: Env, path: Path<Lit>)
    requires NamedPath(env, path)
    ensures var env' := MatchPath(stod, d, env, path);
      && (forall i :: 1 <= i < |path| && path[i].node.variable in env'.context ==> Carries(env, env', path[i].node))
      && (path[0].node.variable in env'.context && path[0].node.variable !in env.context ==> Carries(env, env', path[0].node))
  {
    hide MatchFirst, MatchHops, StartIds, Carries, CarriedUpTo, LabelBound;
    var env1 := MatchFirst(stod, d, env, path[0].node);
    StartIsBound(stod, d, env, path[0].node);
    FirstCarries(stod, d, env, path[0].node);
    assert NamedPath(env1, path);
    if path[0].node.variable in env1.context {
      HopsCarry(d, env1, path, |path| - 1);
      CarriedFromStart(env, env1, MatchHops(d, env1, path, |path| - 1), path);
    } else {
      UnboundHops(d, env1, path, |path| - 1);
    }
  }

  lemma FirstCarries(stod: Stod, d: Db, env: Env, node: Node<Lit>)
    ensures var env1 := MatchFirst(stod, d, env, node);
      && (forall x :: x != node.variable ==> LabelBound(env1, x) == LabelBound(env, x))
      && (node.variable in env1.context && node.variable !in env.context ==> Carries(env, env1, node))
  {
    hide IndexedIds, ScannedIds;
  }

  lemma CarriedFromStart(env: Env, env1: Env, env': Env, path: Path<Lit>)
    requires NamedPath(env, path) && CarriedUpTo(env1, env', path, |path| - 1)
    requires forall x :: x != path[0].node.variable ==> LabelBound(env1, x) == LabelBound(env, x)
    ensures forall i :: 1 <= i < |path| ==> Carries(env, env', path[i].node)
    ensures Carries(env, env1, path[0].node) ==> Carries(env, env', path[0].node)
  {
    hide LabelBound;
    assert forall i :: 1 <= i < |path| ==> path[0].node.variable != path[i].node.variable;
  }

  // ---- the start list in terms of what the nodes hold ----

  /** The text has all the literal properties, up to the canonical form of values. */
  ghost predicate HasAll(stod: Stod, text: string, props: seq<Prop<Lit>>)
    requires AllLiterals(props)
  {
    forall i :: 0 <= i < |props| ==> HasCanon(stod, text, props[i].key, props[i].value.lit.text)
  }

  predicate NulFreeNames(lbl: string, props: seq<Prop<Lit>>) {
    lbl != "" && NulFree(lbl) && forall i :: 0 <= i < |props| ==> NulFree(props[i].key)
  }

  /** Inline literal properties through the index: exactly the nodes of the label that have all of them,
      or had them when they were deleted. */
  lemma {:induction false} IndexedIdsAre(stod: Stod, w: World, lbl: string, props: seq<Prop<Lit>>)
    requires Inv(stod, w) && NulFreeNames(lbl, props) && AllLiterals(props) && props != []
    ensures Sorted(IndexedIds(stod, w.db, lbl, props))
    ensures forall x :: x in IndexedIds(stod, w.db, lbl, props) <==>
      x in w.labels && w.labels[x] == lbl && HasAll(stod, LastText(w, x), props)
    decreases |props|
  {
    hide Inv, NulFree, HasCanon, NodesByProperty, Sort, Intersect, LastText, Sorted;
    var n := |props| - 1;
    var found := NodesByProperty(stod, w.db, lbl, props[n].key, props[n].value.lit.text);
    LookupAnswers(stod, w, lbl, props[n].key, props[n].value.lit.text);
    SortSorts(found);
    if n > 0 {
      var before := props[..n];
      IndexedIdsAre(stod, w, lbl, before);
      IntersectMembers(IndexedIds(stod, w.db, lbl, before), Sort(found));
      forall x ensures HasAll(stod, LastText(w, x), props) <==>
        HasAll(stod, LastText(w, x), before) && HasCanon(stod, LastText(w, x), props[n].key, props[n].value.lit.text)
      {
        HasAllStep(stod, LastText(w, x), props);
      }
    }
  }

  lemma HasAllStep(stod: Stod, text: string, props: seq<Prop<Lit>>)
    requires AllLiterals(props) && props != []
    ensures var n := |props| - 1;
      HasAll(stod, text, props) <==>
      HasAll(stod, text, props[..n]) && HasCanon(stod, text, props[n].key, props[n].value.lit.text)
  {
    hide HasCanon;
    var n := |props| - 1;
    assert forall i :: 0 <= i < n ==> props[..n][i] == props[i];
  }
}
