/** The graph database as a value: the six tables of the key-value store and the id counters, and
    what each storage operation (storage.cpp) does to them. `Storage.Storage` is the object that
    performs these operations; everything proved about runs is proved about these functions.

    `std::stod` is the parameter `stod`, a partial function from text to a binary64 pattern. */
module Store {
  import opened Bytes
  import opened Json
  import opened SortableDouble

  type Table = map<string, string>
  type Stod = string -> Option<u64>

  /** `content_put` with CREATE: an existing key makes it fail and stays as it is. */
  function PutNew(t: Table, k: string, v: string): Table {
    if k in t then t else t[k := v]
  }

  datatype Db = Db(nodes: Table, edges: Table, outIndex: Table, inIndex: Table, labelIndex: Table,
                   propIndex: Table, ids: Ids)

  // ---- id allocation ----

  const SEQUENCE_BATCH_SIZE: nat := 64

  /** The in-memory counters and the value the durable sequence holds (a signed 64-bit number). */
  datatype Ids = Ids(next: u64, version: nat, remaining: nat, durableVersion: nat, durable: int)

  function AsSigned(v: u64): int { if v < TWO63 then v else v - TWO64 }
  function AsUnsigned(v: int): u64 { v % TWO64 }

  function Allocate(s: Ids): Ids {
    var next: u64 := (s.next + 1) % TWO64;
    if s.remaining == 0 then
      var last: u64 := (next + SEQUENCE_BATCH_SIZE - 2) % TWO64;
      Ids(next, s.version + 1, SEQUENCE_BATCH_SIZE - 1, s.version + 1, AsSigned(last))
    else
      s.(next := next, remaining := s.remaining - 1)
  }

  /** `init` of a new process that finds the durable sequence. */
  function Recover(s: Ids): Ids {
    Ids((AsUnsigned(s.durable) + 1) % TWO64, s.durableVersion, 0, s.durableVersion, s.durable)
  }

  const FRESH_IDS: Ids := Ids(1, 0, 0, 0, 0)

  const EMPTY: Db := Db(map[], map[], map[], map[], map[], map[], FRESH_IDS)

  // ---- property index ----

  const NUMERIC: char := 1 as char
  const STRING: char := 2 as char

  function IndexPrefix(lbl: string, key: string): string {
    lbl + "\0" + key + "\0"
  }

  /** The type prefix and encoded value: all that an index key keeps of a value. */
  function Canon(stod: Stod, value: string): string {
    if value != "" && stod(value).Some? then [NUMERIC] + Encode(stod(value).value) else [STRING] + value
  }

  function BuildKey(stod: Stod, lbl: string, key: string, value: string): string {
    IndexPrefix(lbl, key) + Canon(stod, value)
  }

  function Unpack(packed: string): seq<u64> {
    if |packed| < 8 then [] else [FromKey(packed[..8])] + Unpack(packed[8..])
  }

  /** `remove_packed_id`: drops every 8-byte group that is the id, and an incomplete last group. */
  function RemovePacked(packed: string, id: u64): string {
    if |packed| < 8 then ""
    else (if packed[..8] != ToKey(id) then packed[..8] else "") + RemovePacked(packed[8..], id)
  }

  /** One property into the index: CREATE, or else read, append and write back. */
  function AddId(ix: Table, k: string, id: u64): Table {
    if k in ix then ix[k := ix[k] + ToKey(id)] else ix[k := ToKey(id)]
  }

  function RemoveId(ix: Table, k: string, id: u64): Table {
    if k in ix then ix[k := RemovePacked(ix[k], id)] else ix
  }

  function AddIds(ix: Table, ks: seq<string>, id: u64): Table {
    if ks == [] then ix else AddId(AddIds(ix, ks[..|ks| - 1], id), ks[|ks| - 1], id)
  }

  function RemoveIds(ix: Table, ks: seq<string>, id: u64): Table {
    if ks == [] then ix else RemoveId(RemoveIds(ix, ks[..|ks| - 1], id), ks[|ks| - 1], id)
  }

  function FieldKeys(stod: Stod, lbl: string, fs: seq<Field>): (ks: seq<string>)
    ensures |ks| == |fs|
  {
    seq(|fs|, i requires 0 <= i < |fs| => BuildKey(stod, lbl, fs[i].key, fs[i].value))
  }

  /** `index_node_properties`. */
  function IndexNode(stod: Stod, ix: Table, id: u64, lbl: string, text: string): Table {
    if lbl == "" then ix else AddIds(ix, FieldKeys(stod, lbl, Parse(text)), id)
  }

  /** The range constructor of `std::unordered_map`: the first of several equal keys stays. */
  function FirstWins(fs: seq<Field>): map<string, string> {
    if fs == [] then map[] else FirstWins(fs[1..])[fs[0].key := fs[0].value]
  }

  /** The keys whose value in `a` is not their value in `b`. */
  function Changed(a: map<string, string>, b: map<string, string>): set<string> {
    set k | k in a && (k !in b || b[k] != a[k])
  }

  /** The order in which a hash map happens to visit a set of keys. */
  ghost predicate VisitsOnce(order: seq<string>, keys: set<string>) {
    && (forall k :: k in order <==> k in keys)
    && forall i, j :: 0 <= i < j < |order| ==> order[i] != order[j]
  }

  function KeysInOrder(stod: Stod, lbl: string, m: map<string, string>, order: seq<string>): (ks: seq<string>)
    requires forall k :: k in order ==> k in m
    ensures |ks| == |order|
  {
    seq(|order|, i requires 0 <= i < |order| => BuildKey(stod, lbl, order[i], m[order[i]]))
  }

  /** The orders in which the two delta loops of `update_node_with_label` run. */
  ghost predicate DeltaOrders(oldText: string, newText: string, removals: seq<string>, additions: seq<string>) {
    var (o, n) := (FirstWins(Parse(oldText)), FirstWins(Parse(newText)));
    VisitsOnce(removals, Changed(o, n)) && VisitsOnce(additions, Changed(n, o))
  }

  function DeltaIndex(stod: Stod, ix: Table, id: u64, lbl: string, oldText: string, newText: string,
                      removals: seq<string>, additions: seq<string>): Table
    requires DeltaOrders(oldText, newText, removals, additions)
  {
    var o, n := FirstWins(Parse(oldText)), FirstWins(Parse(newText));
    AddIds(RemoveIds(ix, KeysInOrder(stod, lbl, o, removals), id),
           KeysInOrder(stod, lbl, n, additions), id)
  }

  // ---- nodes ----

  function TextOf(nodes: Table, id: u64): string {
    if ToKey(id) in nodes then nodes[ToKey(id)] else ""
  }

  function NodeText(d: Db, id: u64): string {
    TextOf(d.nodes, id)
  }

  predicate Plain(text: string) { text == "" || text == "{}" }

  datatype Created = Created(db: Db, ok: bool, id: u64)

  function CreateNode(stod: Stod, d: Db, lbl: string, text: string): Created {
    var id := d.ids.next;
    var d1 := d.(ids := Allocate(d.ids));
    if ToKey(id) in d.nodes then Created(d1, false, id) else
    var d2 := d1.(nodes := d.nodes[ToKey(id) := text]);
    if lbl == "" then Created(d2, true, id) else
    Created(d2.(labelIndex := PutNew(d.labelIndex, lbl + ToKey(id), ""),
                propIndex := if Plain(text) then d.propIndex
                             else IndexNode(stod, d.propIndex, id, lbl, text)), true, id)
  }

  function UpdateNode(d: Db, id: u64, text: string): Db {
    d.(nodes := d.nodes[ToKey(id) := text])
  }

  function UpdateNodeWithLabel(stod: Stod, d: Db, id: u64, lbl: string, text: string,
                               removals: seq<string>, additions: seq<string>): Db
    requires DeltaOrders(NodeText(d, id), text, removals, additions)
  {
    var oldText := NodeText(d, id);
    var ix := if lbl == "" then d.propIndex
              else if !Plain(oldText) then
                DeltaIndex(stod, d.propIndex, id, lbl, oldText, text, removals, additions)
              else if !Plain(text) then IndexNode(stod, d.propIndex, id, lbl, text)
              else d.propIndex;
    d.(propIndex := ix, nodes := d.nodes[ToKey(id) := text])
  }

  /** A deleted node keeps its key with an empty value, and its index entries. */
  function DeleteNode(d: Db, id: u64, lbl: string): Db {
    d.(nodes := d.nodes[ToKey(id) := ""],
       labelIndex := if lbl == "" then d.labelIndex else d.labelIndex[lbl + ToKey(id) := ""])
  }

  // ---- edges ----

  datatype Edge = Edge(source: u64, target: u64, lbl: string, properties: string)

  const TWO32: nat := 0x1_0000_0000

  function LittleEndian(v: nat, k: nat): (s: string)
    ensures |s| == k
  {
    if k == 0 then "" else [(v % 256) as char] + LittleEndian(v / 256, k - 1)
  }

  function FromLittleEndian(s: string): nat {
    if s == "" then 0 else (s[0] as int) % 256 + 256 * FromLittleEndian(s[1..])
  }

  /** from(8) to(8) label size(4, host order) label properties. */
  function EncodeEdge(e: Edge): string {
    ToKey(e.source) + ToKey(e.target) + LittleEndian(|e.lbl| % TWO32, 4) + e.lbl + e.properties
  }

  /** The size check adds in 32 bits. Where that wraps, the source reads past the value; None here. */
  function DecodeEdge(v: string): Option<Edge> {
    if |v| < 20 then None else
    var size := FromLittleEndian(v[16..20]);
    if (20 + size) % TWO32 > |v| || 20 + size > |v| then None else
    Some(Edge(FromKey(v[..8]), FromKey(v[8..16]), v[20..20 + size], v[20 + size..]))
  }

  function GetEdge(d: Db, id: u64): Option<Edge> {
    if ToKey(id) in d.edges then DecodeEdge(d.edges[ToKey(id)]) else None
  }

  function CreateEdge(d: Db, e: Edge): Created {
    var id := d.ids.next;
    var d1 := d.(ids := Allocate(d.ids));
    if ToKey(id) in d.edges then Created(d1, false, id) else
    Created(d1.(edges := d.edges[ToKey(id) := EncodeEdge(e)],
                outIndex := PutNew(d.outIndex, ToKey(e.source) + ToKey(id), ToKey(e.target)),
                inIndex := PutNew(d.inIndex, ToKey(e.target) + ToKey(id), ToKey(e.source))), true, id)
  }

  function DeleteEdge(d: Db, id: u64): Db {
    match GetEdge(d, id)
    case None => d
    case Some(e) =>
      d.(edges := d.edges[ToKey(id) := ""],
         outIndex := d.outIndex[ToKey(e.source) + ToKey(id) := ""],
         inIndex := d.inIndex[ToKey(e.target) + ToKey(id) := ""])
  }

  // ---- scans ----

  datatype EndPoint = Inclusive(key: string) | Exclusive(key: string)

  predicate Above(k: string, p: EndPoint) {
    match p case Inclusive(b) => Leq(b, k) case Exclusive(b) => Less(b, k)
  }

  predicate Below(k: string, p: EndPoint) {
    match p case Inclusive(e) => Leq(k, e) case Exclusive(e) => Less(k, e)
  }

  /** `content_scan` between two end points: the keys an iterator visits, in order. */
  function Interval(t: Table, lo: EndPoint, hi: EndPoint): seq<string> {
    Ascending(set k | k in t && Above(k, lo) && Below(k, hi))
  }

  /** `prefix_scan`. */
  function Prefixed(t: Table, prefix: string): seq<string> {
    Ascending(set k | k in t && StartsWith(k, prefix))
  }

  /** The ids that follow the first `skip` bytes of the visited keys; too short keys are skipped. */
  function IdsBehind(ks: seq<string>, skip: nat): seq<u64> {
    if ks == [] then []
    else IdsBehind(ks[..|ks| - 1], skip)
         + (var k := ks[|ks| - 1]; if |k| < skip + 8 then [] else [FromKey(k[skip..skip + 8])])
  }

  function OutgoingEdges(d: Db, id: u64): seq<u64> {
    IdsBehind(Prefixed(d.outIndex, ToKey(id)), 8)
  }

  function IncomingEdges(d: Db, id: u64): seq<u64> {
    IdsBehind(Prefixed(d.inIndex, ToKey(id)), 8)
  }

  /** `label_iterator`: stops at the first key that is too short. */
  function IterateIds(ks: seq<string>, skip: nat): seq<u64> {
    if ks == [] || |ks[0]| < skip + 8 then []
    else [FromKey(ks[0][skip..skip + 8])] + IterateIds(ks[1..], skip)
  }

  function IteratedByLabel(d: Db, lbl: string): seq<u64> {
    IterateIds(Prefixed(d.labelIndex, lbl), |lbl|)
  }

  /** `find_nodes_by_label`. */
  function NodesByLabel(d: Db, lbl: string): seq<u64> {
    IdsBehind(Prefixed(d.labelIndex, lbl), |lbl|)
  }

  function NodesByProperty(stod: Stod, d: Db, lbl: string, key: string, value: string): seq<u64> {
    var k := BuildKey(stod, lbl, key, value);
    if k in d.propIndex then Unpack(d.propIndex[k]) else []
  }
}
