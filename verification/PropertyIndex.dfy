/** The inverted property index: packed id lists, unique decoding of index keys, and the effect of
    one node operation on which ids are listed under which key. */
module PropertyIndex {
  import opened Bytes
  import opened Json
  import opened SortableDouble
  import opened Store

  // ---- packed id lists ----

  predicate Distinct<T(==)>(s: seq<T>) {
    forall i, j :: 0 <= i < j < |s| ==> s[i] != s[j]
  }

  function Pack(ids: seq<u64>): string {
    if ids == [] then "" else ToKey(ids[0]) + Pack(ids[1..])
  }

  function Without(ids: seq<u64>, id: u64): (r: seq<u64>)
    ensures forall x :: x in r <==> x in ids && x != id
    ensures Distinct(ids) ==> Distinct(r)
    ensures id !in ids ==> r == ids
  {
    if ids == [] then [] else
    var rest := Without(ids[1..], id);
    assert forall x :: x in ids <==> x == ids[0] || x in ids[1..];
    assert Distinct(ids) ==> Distinct(ids[1..]) && ids[0] !in ids[1..];
    assert Distinct(rest) && ids[0] !in rest ==> Distinct([ids[0]] + rest);
    if ids[0] == id then rest else [ids[0]] + rest
  }

  lemma {:induction false} UnpackPack(ids: seq<u64>)
    ensures Unpack(Pack(ids)) == ids
  {
    if ids != [] {
      var p := Pack(ids);
      assert p[..8] == ToKey(ids[0]) && p[8..] == Pack(ids[1..]);
      UnpackPack(ids[1..]);
    }
  }

  lemma {:induction false} RemovePackedPack(ids: seq<u64>, id: u64)
    ensures RemovePacked(Pack(ids), id) == Pack(Without(ids, id))
  {
    if ids != [] {
      var p := Pack(ids);
      assert p[..8] == ToKey(ids[0]) && p[8..] == Pack(ids[1..]);
      RemovePackedPack(ids[1..], id);
      assert ToKey(ids[0]) == ToKey(id) <==> ids[0] == id;
    }
  }

  lemma {:induction false} PackAppend(ids: seq<u64>, id: u64)
    ensures Pack(ids + [id]) == Pack(ids) + ToKey(id)
  {
    if ids == [] {
      assert Pack([id]) == ToKey(id) + Pack([]);
    } else {
      assert (ids + [id])[1..] == ids[1..] + [id];
      PackAppend(ids[1..], id);
    }
  }

  function Listed(ix: Table, k: string): seq<u64> {
    if k in ix then Unpack(ix[k]) else []
  }

  /** Every stored value is a packed list without repetitions. */
  predicate WellPacked(ix: Table) {
    forall k :: k in ix ==> ix[k] == Pack(Unpack(ix[k])) && Distinct(Unpack(ix[k]))
  }

  /** The index after a change that concerns one id only. */
  ghost predicate OnlyConcerns(ix: Table, ix': Table, id: u64) {
    forall k, x :: x != id ==> (x in Listed(ix', k) <==> x in Listed(ix, k))
  }

  lemma AddIdEffect(ix: Table, k: string, id: u64)
    requires WellPacked(ix) && id !in Listed(ix, k)
    ensures WellPacked(AddId(ix, k, id))
    ensures forall j :: Listed(AddId(ix, k, id), j) == Listed(ix, j) + if j == k then [id] else []
  {
    hide Unpack, Pack, ToKey, Distinct;
    NewList(ix, k, id);
  }

  lemma NewList(ix: Table, k: string, id: u64)
    requires WellPacked(ix) && id !in Listed(ix, k)
    ensures var ids := Listed(ix, k) + [id];
      AddId(ix, k, id)[k] == Pack(ids) && Unpack(Pack(ids)) == ids && Distinct(ids)
  {
    hide ToKey, Unpack;
    var ids := Listed(ix, k);
    assert k !in ix ==> Pack(ids) == "";
    PackAppend(ids, id);
    UnpackPack(ids + [id]);
    assert "" + ToKey(id) == ToKey(id);
  }

  lemma RemoveIdEffect(ix: Table, k: string, id: u64)
    requires WellPacked(ix)
    ensures WellPacked(RemoveId(ix, k, id))
    ensures forall j :: Listed(RemoveId(ix, k, id), j) == if j == k then Without(Listed(ix, j), id) else Listed(ix, j)
  {
    var ids := Listed(ix, k);
    RemovePackedPack(ids, id);
    UnpackPack(Without(ids, id));
  }

  lemma {:induction false} AddIdsEffect(ix: Table, ks: seq<string>, id: u64)
    requires WellPacked(ix) && Distinct(ks) && forall k :: k in ks ==> id !in Listed(ix, k)
    ensures WellPacked(AddIds(ix, ks, id))
    ensures forall j :: Listed(AddIds(ix, ks, id), j) == Listed(ix, j) + if j in ks then [id] else []
  {
    if ks != [] {
      var n := |ks| - 1;
      var k := ks[n];
      assert ks == ks[..n] + [k];
      AddIdsEffect(ix, ks[..n], id);
      assert k !in ks[..n];
      AddIdEffect(AddIds(ix, ks[..n], id), k, id);
    }
  }

  lemma {:induction false} RemoveIdsEffect(ix: Table, ks: seq<string>, id: u64)
    requires WellPacked(ix)
    ensures WellPacked(RemoveIds(ix, ks, id))
    ensures forall j :: Listed(RemoveIds(ix, ks, id), j) == if j in ks then Without(Listed(ix, j), id) else Listed(ix, j)
  {
    if ks != [] {
      var n := |ks| - 1;
      assert ks == ks[..n] + [ks[n]];
      RemoveIdsEffect(ix, ks[..n], id);
      RemoveIdEffect(RemoveIds(ix, ks[..n], id), ks[n], id);
    }
  }

  // ---- unique decoding of index keys ----

  predicate NulFree(s: string) {
    forall i :: 0 <= i < |s| ==> s[i] != '\0'
  }

  /** A NUL-free name ends at the first NUL. */
  lemma NameEnds(a: string, x: string, b: string, y: string)
    requires NulFree(a) && NulFree(b)
    requires StartsWith(a + ("\0" + x), b + "\0") || a + ("\0" + x) == b + ("\0" + y)
    ensures a == b
  {
    var s := a + ("\0" + x);
    assert forall i :: 0 <= i < |a| ==> s[i] == a[i];
    assert s[|a|] == '\0';
    assert forall i :: 0 <= i < |b| ==> s[i] == b[i] by {
      if StartsWith(s, b + "\0") {
        assert forall i :: 0 <= i < |b| ==> s[..|b + "\0"|][i] == b[i];
      }
    }
    assert |b| < |s| && s[|b|] == '\0' by {
      if StartsWith(s, b + "\0") { assert s[..|b + "\0"|][|b|] == '\0'; }
    }
    assert |a| == |b|;
  }

  /** A key that starts with the index prefix of (label, key) belongs to that label and key. */
  lemma PrefixDecodes(lbl: string, key: string, tail: string, lbl': string, key': string)
    requires NulFree(lbl) && NulFree(key) && NulFree(lbl') && NulFree(key')
    requires StartsWith(IndexPrefix(lbl, key) + tail, IndexPrefix(lbl', key'))
    ensures lbl == lbl' && key == key'
  {
    var s := IndexPrefix(lbl, key) + tail;
    assert s == lbl + ("\0" + (key + ("\0" + tail)));
    var p' := IndexPrefix(lbl', key');
    assert p' == lbl' + "\0" + (key' + "\0");
    assert StartsWith(s, lbl' + "\0") by { assert s[..|lbl' + "\0"|] == p'[..|lbl' + "\0"|]; }
    NameEnds(lbl, key + ("\0" + tail), lbl', "");
    var t := key + ("\0" + tail);
    assert t == s[|lbl| + 1..];
    assert StartsWith(t, key' + "\0") by { assert t[..|key' + "\0"|] == s[..|p'|][|lbl| + 1..]; }
    NameEnds(key, tail, key', "");
  }

  lemma BuildKeyDecodes(stod: Stod, lbl: string, key: string, value: string,
                        lbl': string, key': string, value': string)
    requires NulFree(lbl) && NulFree(key) && NulFree(lbl') && NulFree(key')
    requires BuildKey(stod, lbl, key, value) == BuildKey(stod, lbl', key', value')
    ensures lbl == lbl' && key == key' && Canon(stod, value) == Canon(stod, value')
  {
    var k, p' := BuildKey(stod, lbl, key, value), IndexPrefix(lbl', key');
    assert k[..|p'|] == p';
    PrefixDecodes(lbl, key, Canon(stod, value), lbl', key');
    assert k[|p'|..] == Canon(stod, value) == Canon(stod, value');
  }

  // ---- the keys a text is listed under ----

  /** What the writers of property texts guarantee: distinct keys without NUL. */
  predicate ValidText(text: string) {
    var fs := Parse(text);
    && (forall i :: 0 <= i < |fs| ==> NulFree(fs[i].key))
    && forall i, j :: 0 <= i < j < |fs| ==> fs[i].key != fs[j].key
  }

  ghost predicate SomeField(stod: Stod, lbl: string, fs: seq<Field>, k: string) {
    exists f :: f in fs && BuildKey(stod, lbl, f.key, f.value) == k
  }

  ghost predicate SomeEntry(stod: Stod, lbl: string, m: map<string, string>, which: set<string>, k: string) {
    exists p :: p in which && p in m && BuildKey(stod, lbl, p, m[p]) == k
  }

  /** Some property of the text is indexed under k. */
  ghost predicate Holds(stod: Stod, lbl: string, text: string, k: string) {
    lbl != "" && SomeField(stod, lbl, Parse(text), k)
  }

  /** The index key starts with the node's label. */
  predicate UnderLabel(lbl: string, k: string) {
    StartsWith(k, lbl + "\0")
  }

  lemma HoldsUnderLabel(stod: Stod, lbl: string, text: string, k: string)
    requires Holds(stod, lbl, text, k)
    ensures UnderLabel(lbl, k)
  {
    hide Canon, Parse;
    var f :| f in Parse(text) && BuildKey(stod, lbl, f.key, f.value) == k;
    assert k == (lbl + "\0") + (f.key + "\0" + Canon(stod, f.value));
  }

  lemma PlainHoldsNothing(stod: Stod, lbl: string, text: string, k: string)
    requires Plain(text)
    ensures Parse(text) == [] && !Holds(stod, lbl, text, k)
  {
    if text == "{}" {
      assert Find(text, QUOTE, 1) == 2 by {
        assert Find(text, QUOTE, 2) == 2;
      }
    }
  }

  lemma {:induction false} FirstWinsIs(fs: seq<Field>)
    requires forall i, j :: 0 <= i < j < |fs| ==> fs[i].key != fs[j].key
    ensures forall k :: k in FirstWins(fs) <==> exists f :: f in fs && f.key == k
    ensures forall f :: f in fs ==> FirstWins(fs)[f.key] == f.value
  {
    if fs != [] {
      FirstWinsIs(fs[1..]);
      assert forall f :: f in fs <==> f == fs[0] || f in fs[1..];
      var m := FirstWins(fs);
      forall k ensures k in m <==> exists f :: f in fs && f.key == k {
        if k in m && k != fs[0].key {
          assert k in FirstWins(fs[1..]);
          var f :| f in fs[1..] && f.key == k;
          assert f in fs;
        }
        if k == fs[0].key { assert fs[0] in fs; }
      }
      forall f | f in fs ensures m[f.key] == f.value {
        if f in fs[1..] {
          var i :| 0 <= i < |fs[1..]| && fs[1..][i] == f;
          assert fs[i + 1] == f && fs[0].key != fs[i + 1].key;
        }
      }
    }
  }

  /** For a valid text, holding k is having a map entry whose index key is k. */
  lemma HoldsIsMapEntry(stod: Stod, lbl: string, text: string)
    requires ValidText(text) && lbl != ""
    ensures var m := FirstWins(Parse(text));
      && (forall p :: p in m ==> NulFree(p))
      && (forall k :: Holds(stod, lbl, text, k) <==> SomeEntry(stod, lbl, m, m.Keys, k))
  {
    var fs, m := Parse(text), FirstWins(Parse(text));
    FirstWinsIs(fs);
    EntriesAreNulFree(fs, m);
    forall k ensures SomeField(stod, lbl, fs, k) <==> SomeEntry(stod, lbl, m, m.Keys, k) {
      FieldOrEntry(stod, lbl, fs, m, k);
    }
  }

  lemma EntriesAreNulFree(fs: seq<Field>, m: map<string, string>)
    requires forall p :: p in m <==> exists f :: f in fs && f.key == p
    requires forall i :: 0 <= i < |fs| ==> NulFree(fs[i].key)
    ensures forall p :: p in m ==> NulFree(p)
  {
    hide NulFree;
  }

  lemma FieldOrEntry(stod: Stod, lbl: string, fs: seq<Field>, m: map<string, string>, k: string)
    requires forall p :: p in m <==> exists f :: f in fs && f.key == p
    requires forall f :: f in fs ==> m[f.key] == f.value
    ensures SomeField(stod, lbl, fs, k) <==> SomeEntry(stod, lbl, m, m.Keys, k)
  {
    hide BuildKey;
    if SomeEntry(stod, lbl, m, m.Keys, k) {
      var p :| p in m && BuildKey(stod, lbl, p, m[p]) == k;
      var f :| f in fs && f.key == p;
      assert BuildKey(stod, lbl, f.key, f.value) == k;
    }
    if SomeField(stod, lbl, fs, k) {
      var f :| f in fs && BuildKey(stod, lbl, f.key, f.value) == k;
      assert f.key in m.Keys;
    }
  }

  // ---- orders of visits ----

  /** Listing a set of keys in byte order visits each once. */
  lemma AscendingVisitsOnce(keys: set<string>)
    ensures VisitsOnce(Ascending(keys), keys)
  {
    var ks := Ascending(keys);
    forall i, j | 0 <= i < j < |ks| ensures ks[i] != ks[j] { LessAsymmetric(ks[i], ks[j]); }
  }

  lemma SomeOrders(oldText: string, newText: string) returns (removals: seq<string>, additions: seq<string>)
    ensures DeltaOrders(oldText, newText, removals, additions)
  {
    var o, n := FirstWins(Parse(oldText)), FirstWins(Parse(newText));
    removals, additions := Ascending(Changed(o, n)), Ascending(Changed(n, o));
    AscendingVisitsOnce(Changed(o, n));
    AscendingVisitsOnce(Changed(n, o));
  }

  // ---- what one node operation does ----

  /** The ids listed under each key after a text of `id` was indexed or replaced. */
  ghost predicate Reindexed(stod: Stod, ix: Table, ix': Table, id: u64, lbl: string, text: string) {
    && WellPacked(ix') && OnlyConcerns(ix, ix', id)
    && forall k :: id in Listed(ix', k) <==> Holds(stod, lbl, text, k)
  }

  lemma IndexNodeEffect(stod: Stod, ix: Table, id: u64, lbl: string, text: string)
    requires WellPacked(ix) && NulFree(lbl) && ValidText(text)
    requires forall k :: id !in Listed(ix, k)
    ensures Reindexed(stod, ix, IndexNode(stod, ix, id, lbl, text), id, lbl, text)
  {
    hide FieldKeys, Holds, AddIds, WellPacked, ValidText, NulFree, Listed;
    if lbl != "" {
      FieldKeysAre(stod, lbl, text);
      AddIdsEffect(ix, FieldKeys(stod, lbl, Parse(text)), id);
    } else {
      forall k ensures !Holds(stod, lbl, text, k) { UnlabelledHoldsNothing(stod, text, k); }
    }
  }

  lemma UnlabelledHoldsNothing(stod: Stod, text: string, k: string)
    ensures !Holds(stod, "", text, k)
  {
  }

  /** A valid text has one index key per property, all different. */
  lemma FieldKeysAre(stod: Stod, lbl: string, text: string)
    requires ValidText(text) && NulFree(lbl) && lbl != ""
    ensures var ks := FieldKeys(stod, lbl, Parse(text));
      Distinct(ks) && forall k :: k in ks <==> Holds(stod, lbl, text, k)
  {
    hide BuildKey;
    var fs := Parse(text);
    var ks := FieldKeys(stod, lbl, fs);
    forall i, j | 0 <= i < j < |ks| ensures ks[i] != ks[j] {
      if ks[i] == ks[j] {
        BuildKeyDecodes(stod, lbl, fs[i].key, fs[i].value, lbl, fs[j].key, fs[j].value);
      }
    }
    forall k ensures k in ks <==> Holds(stod, lbl, text, k) {
      if k in ks {
        var i :| 0 <= i < |ks| && ks[i] == k;
        assert fs[i] in fs;
      }
      if Holds(stod, lbl, text, k) {
        var f :| f in fs && BuildKey(stod, lbl, f.key, f.value) == k;
        var i :| 0 <= i < |fs| && fs[i] == f;
        assert ks[i] == k;
      }
    }
  }

  lemma KeysInOrderAre(stod: Stod, lbl: string, m: map<string, string>, order: seq<string>, which: set<string>)
    requires VisitsOnce(order, which) && which <= m.Keys && NulFree(lbl) && forall p :: p in m ==> NulFree(p)
    ensures var ks := KeysInOrder(stod, lbl, m, order);
      Distinct(ks) && forall k :: k in ks <==> SomeEntry(stod, lbl, m, which, k)
  {
    var ks := KeysInOrder(stod, lbl, m, order);
    forall i, j | 0 <= i < j < |ks| ensures ks[i] != ks[j] {
      assert order[i] in m && order[j] in m;
      if ks[i] == ks[j] {
        BuildKeyDecodes(stod, lbl, order[i], m[order[i]], lbl, order[j], m[order[j]]);
      }
    }
    forall k ensures k in ks <==> SomeEntry(stod, lbl, m, which, k) {
      if k in ks {
        var i :| 0 <= i < |ks| && ks[i] == k;
        assert order[i] in which;
      }
      if SomeEntry(stod, lbl, m, which, k) {
        var p :| p in which && BuildKey(stod, lbl, p, m[p]) == k;
        var i :| 0 <= i < |order| && order[i] == p;
        assert ks[i] == k;
      }
    }
  }

  /** Only the changed properties are visited, in any order; the outcome is that of reindexing. */
  lemma DeltaEffect(stod: Stod, ix: Table, id: u64, lbl: string, oldText: string, newText: string,
                    removals: seq<string>, additions: seq<string>)
    requires WellPacked(ix) && NulFree(lbl) && lbl != "" && ValidText(oldText) && ValidText(newText)
    requires DeltaOrders(oldText, newText, removals, additions)
    requires forall k :: id in Listed(ix, k) <==> Holds(stod, lbl, oldText, k)
    ensures Reindexed(stod, ix, DeltaIndex(stod, ix, id, lbl, oldText, newText, removals, additions),
                      id, lbl, newText)
  {
    hide Parse, FirstWins, BuildKey, Holds, SomeEntry, KeysInOrder, AddIds, RemoveIds, WellPacked, Distinct,
      ValidText, Listed;
    var o, n := FirstWins(Parse(oldText)), FirstWins(Parse(newText));
    HoldsIsMapEntry(stod, lbl, oldText);
    HoldsIsMapEntry(stod, lbl, newText);
    KeysInOrderAre(stod, lbl, o, removals, Changed(o, n));
    KeysInOrderAre(stod, lbl, n, additions, Changed(n, o));
    var out := KeysInOrder(stod, lbl, o, removals);
    var into := KeysInOrder(stod, lbl, n, additions);
    var mid := RemoveIds(ix, out, id);
    RemoveIdsEffect(ix, out, id);
    forall k ensures k in into ==> id !in Listed(mid, k)
             ensures (id in Listed(mid, k) || k in into) <==> Holds(stod, lbl, newText, k)
    {
      DeltaAtKey(stod, lbl, o, n, k);
      assert id in Listed(mid, k) <==> id in Listed(ix, k) && k !in out;
    }
    AddIdsEffect(mid, into, id);
  }

  /** The set arithmetic behind the delta: what stays and what is added is what the new map has. */
  lemma DeltaAtKey(stod: Stod, lbl: string, o: map<string, string>, n: map<string, string>, k: string)
    requires NulFree(lbl) && (forall p :: p in o ==> NulFree(p)) && (forall p :: p in n ==> NulFree(p))
    ensures var stays := SomeEntry(stod, lbl, o, o.Keys, k) && !SomeEntry(stod, lbl, o, Changed(o, n), k);
            var added := SomeEntry(stod, lbl, n, Changed(n, o), k);
            && !(stays && added)
            && (stays || added <==> SomeEntry(stod, lbl, n, n.Keys, k))
  {
    forall p, q | p in o && q in n && BuildKey(stod, lbl, p, o[p]) == k && BuildKey(stod, lbl, q, n[q]) == k
      ensures p == q
    {
      BuildKeyDecodes(stod, lbl, p, o[p], lbl, q, n[q]);
    }
    forall p, q | p in o && q in o && BuildKey(stod, lbl, p, o[p]) == k && BuildKey(stod, lbl, q, o[q]) == k
      ensures p == q
    {
      BuildKeyDecodes(stod, lbl, p, o[p], lbl, q, o[q]);
    }
    hide BuildKey, NulFree;
  }
}
