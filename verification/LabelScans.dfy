/** Label scans. A label index key is the label followed by the 8 bytes of the id with nothing in
    between, so a scan for "A" also visits the keys of "AB", and one for "AB" those of nodes labelled "A"
    whose id begins with the byte of 'B'. */
module LabelScans {
  import opened Bytes
  import opened Store
  import opened PropertyIndex
  import opened Runs
  import opened RunResults
  import opened Ranges

  /** Some node's label continues lbl. */
  ghost predicate Extended(w: World, lbl: string) {
    exists x :: x in w.labels && w.labels[x] != lbl && StartsWith(w.labels[x], lbl)
  }

  /** Node x has a shorter label that its id continues to lbl. */
  predicate Intrudes(w: World, lbl: string, x: u64) {
    x in w.labels && w.labels[x] != "" && |w.labels[x]| < |lbl| && StartsWith(w.labels[x] + ToKey(x), lbl)
  }

  /** Such a node's key comes before one of the label's own. */
  ghost predicate CutOff(w: World, lbl: string) {
    exists x, y :: Intrudes(w, lbl, x) && y in w.labels && w.labels[y] == lbl
      && Less(w.labels[x] + ToKey(x), lbl + ToKey(y))
  }

  /** find_nodes_by_label lists exactly the nodes created with the label, in ascending order. */
  ghost predicate FindExact(w: World, lbl: string) {
    var found := NodesByLabel(w.db, lbl);
    && Increasing(found)
    && forall x :: x in found <==> x in w.labels && w.labels[x] == lbl
  }

  /** And so does the streaming iterator. */
  ghost predicate ScanExact(w: World, lbl: string) {
    FindExact(w, lbl) && IteratedByLabel(w.db, lbl) == NodesByLabel(w.db, lbl)
  }

  // ---- short keys ----

  predicate Long(k: string, skip: nat) {
    |k| >= skip + 8
  }

  function LongOnly(ks: seq<string>, skip: nat): seq<string> {
    Keep(ks, k => Long(k, skip))
  }

  lemma LongOnlyIs(ks: seq<string>, skip: nat)
    ensures forall k :: k in LongOnly(ks, skip) <==> k in ks && Long(k, skip)
    ensures StrictlyAscending(ks) ==> StrictlyAscending(LongOnly(ks, skip))
  {
    KeepMembers(ks, k => Long(k, skip));
    if StrictlyAscending(ks) { KeepAscending(ks, k => Long(k, skip)); }
  }

  lemma LongOnlyStep(ks: seq<string>, k: string, skip: nat)
    ensures LongOnly(ks + [k], skip) == if Long(k, skip) then LongOnly(ks, skip) + [k] else LongOnly(ks, skip)
    ensures IdsBehind(ks + [k], skip) == IdsBehind(ks, skip) + if Long(k, skip) then [FromKey(k[skip..skip + 8])] else []
    ensures LongOnly([], skip) == []
  {
    hide FromKey;
    KeepStep(ks, k, k => Long(k, skip));
    assert (ks + [k])[..|ks|] == ks;
  }

  lemma {:induction false} LongOnlyAppend(a: seq<string>, b: seq<string>, skip: nat)
    ensures LongOnly(a + b, skip) == LongOnly(a, skip) + LongOnly(b, skip)
  {
    KeepAppend(a, b, k => Long(k, skip));
  }

  /** find_nodes_by_label skips short keys. */
  lemma {:induction false} ShortSkipped(ks: seq<string>, skip: nat)
    ensures IdsBehind(ks, skip) == IdsBehind(LongOnly(ks, skip), skip)
    ensures |IdsBehind(ks, skip)| == |LongOnly(ks, skip)|
  {
    hide IdsBehind, FromKey, LongOnly;
    if ks == [] {
      LongOnlyStep([], "", skip);
      NothingBehind(skip);
    } else {
      var c, k := ks[..|ks| - 1], ks[|ks| - 1];
      assert ks == c + [k];
      ShortSkipped(c, skip);
      LongOnlyStep(c, k, skip);
      LongOnlyStep(LongOnly(c, skip), k, skip);
    }
  }

  lemma NothingBehind(skip: nat)
    ensures IdsBehind([], skip) == []
  {
  }

  /** How many keys come before the first short one. */
  function LongRun(ks: seq<string>, skip: nat): (n: nat)
    ensures n <= |ks| && (n < |ks| ==> !Long(ks[n], skip))
    ensures forall i :: 0 <= i < n ==> Long(ks[i], skip)
  {
    if ks == [] || !Long(ks[0], skip) then 0 else 1 + LongRun(ks[1..], skip)
  }

  lemma {:induction false} IdsBehindFront(ks: seq<string>, skip: nat)
    requires ks != [] && Long(ks[0], skip)
    ensures IdsBehind(ks, skip) == [FromKey(ks[0][skip..skip + 8])] + IdsBehind(ks[1..], skip)
    decreases |ks|
  {
    hide FromKey;
    if |ks| == 1 {
      assert ks[..0] == [] && ks[1..] == [];
    } else {
      var n := |ks| - 1;
      IdsBehindFront(ks[..n], skip);
      assert ks[..n][1..] == ks[1..][..n - 1] && ks[1..][n - 1] == ks[n];
    }
  }

  /** The iterator stops where the first short key is. */
  lemma {:induction false} IteratorStops(ks: seq<string>, skip: nat)
    ensures IterateIds(ks, skip) == IdsBehind(ks[..LongRun(ks, skip)], skip)
    decreases |ks|
  {
    hide FromKey;
    if ks == [] || !Long(ks[0], skip) {
      assert ks[..0] == [];
    } else {
      IteratorStops(ks[1..], skip);
      var run := ks[..LongRun(ks, skip)];
      assert run[1..] == ks[1..][..LongRun(ks[1..], skip)];
      IdsBehindFront(run, skip);
    }
  }

  lemma SomeLongLeft(ks: seq<string>, skip: nat)
    ensures LongOnly(ks, skip) != [] <==> exists i :: 0 <= i < |ks| && Long(ks[i], skip)
  {
    hide LongOnly;
    LongOnlyIs(ks, skip);
    if LongOnly(ks, skip) != [] {
      assert LongOnly(ks, skip)[0] in LongOnly(ks, skip);
    }
    if i :| 0 <= i < |ks| && Long(ks[i], skip) { assert ks[i] in LongOnly(ks, skip); }
  }

  lemma IteratorMisses(ks: seq<string>, skip: nat)
    ensures |IdsBehind(ks, skip)| == |IterateIds(ks, skip)| + |LongOnly(ks[LongRun(ks, skip)..], skip)|
    ensures LongOnly(ks[LongRun(ks, skip)..], skip) == [] ==> IdsBehind(ks, skip) == IterateIds(ks, skip)
  {
    hide IterateIds, IdsBehind, LongOnly;
    var n := LongRun(ks, skip);
    IteratorStops(ks, skip);
    ShortSkipped(ks, skip);
    ShortSkipped(ks[..n], skip);
    assert ks == ks[..n] + ks[n..];
    LongOnlyAppend(ks[..n], ks[n..], skip);
    assert LongOnly(ks[..n], skip) + [] == LongOnly(ks[..n], skip);
  }

  /** A long key comes after a short one. */
  ghost predicate Split(ks: seq<string>, skip: nat) {
    exists i, j :: 0 <= i < j < |ks| && !Long(ks[i], skip) && Long(ks[j], skip)
  }

  /** The two scans agree exactly when no long key follows a short one. */
  lemma IteratorCompleteIff(ks: seq<string>, skip: nat)
    ensures IterateIds(ks, skip) == IdsBehind(ks, skip) <==> !Split(ks, skip)
  {
    hide IterateIds, IdsBehind, LongOnly, Split;
    IteratorMisses(ks, skip);
    SplitIff(ks, skip);
  }

  lemma SplitIff(ks: seq<string>, skip: nat)
    ensures Split(ks, skip) <==> LongOnly(ks[LongRun(ks, skip)..], skip) != []
  {
    hide LongOnly, Long;
    var n := LongRun(ks, skip);
    SomeLongLeft(ks[n..], skip);
    if i, j :| 0 <= i < j < |ks| && !Long(ks[i], skip) && Long(ks[j], skip) {
      assert ks[n..][j - n] == ks[j];
    }
    if i :| 0 <= i < |ks[n..]| && Long(ks[n..][i], skip) {
      assert ks[n..][i] == ks[n + i];
    }
  }

  // ---- whose keys are visited ----

  /** A visited key that is long enough belongs to a label that is lbl or continues it. */
  lemma VisitedKey(stod: Stod, w: World, lbl: string, k: string)
    requires Inv(stod, w) && k in w.db.labelIndex && StartsWith(k, lbl)
    ensures TailId(k) in w.labels && w.labels[TailId(k)] != "" && k == w.labels[TailId(k)] + ToKey(TailId(k))
    ensures Long(k, |lbl|) <==> |w.labels[TailId(k)]| >= |lbl|
    ensures Long(k, |lbl|) ==> StartsWith(w.labels[TailId(k)], lbl)
  {
    hide NodesInv, IndexInv, RecordsInv, ToKey, FromKey, TailId;
    var own := w.labels[TailId(k)];
    KeyedIs(own, TailId(k));
    if |own| >= |lbl| { assert own[..|lbl|] == k[..|lbl|]; }
  }

  function NodesLabelled(w: World, lbl: string): set<u64> {
    set x | x in w.labels && w.labels[x] == lbl
  }

  /** The keys find_nodes_by_label reads ids from. */
  ghost function LongKeys(w: World, lbl: string): set<string> {
    set k | k in w.db.labelIndex && StartsWith(k, lbl) && Long(k, |lbl|)
  }

  lemma FoundAreBehindLongKeys(w: World, lbl: string)
    ensures NodesByLabel(w.db, lbl) == IdsBehind(Ascending(LongKeys(w, lbl)), |lbl|)
    ensures |NodesByLabel(w.db, lbl)| == |LongKeys(w, lbl)|
  {
    hide IdsBehind, Ascending, LongOnly;
    var ks := Prefixed(w.db.labelIndex, lbl);
    ShortSkipped(ks, |lbl|);
    LongOnlyIs(ks, |lbl|);
    AscendingUnique(LongOnly(ks, |lbl|), Ascending(LongKeys(w, lbl)));
    AscendingSize(LongKeys(w, lbl));
  }

  lemma KeyIsThere(stod: Stod, w: World, x: u64)
    requires Inv(stod, w) && x in w.labels && w.labels[x] != ""
    ensures Keyed(w.labels[x], x) in w.db.labelIndex && Keyed(w.labels[x], x) == w.labels[x] + ToKey(x)
  {
    hide NodesInv, IndexInv, RecordsInv, ToKey, FromKey, TailId;
    assert x in Labelled(w.labels);
    KeyedIs(w.labels[x], x);
  }

  lemma OwnKeyLong(stod: Stod, w: World, lbl: string, x: u64)
    requires Inv(stod, w) && lbl != "" && x in w.labels && StartsWith(w.labels[x], lbl)
    ensures Keyed(w.labels[x], x) in LongKeys(w, lbl)
  {
    hide Inv, ToKey, FromKey, TailId, Keyed;
    KeyIsThere(stod, w, x);
    var k := w.labels[x] + ToKey(x);
    assert k[..|lbl|] == w.labels[x][..|lbl|];
  }

  lemma {:induction false} AscendingSize(s: set<string>)
    ensures |Ascending(s)| == |s|
    decreases |s|
  {
    if s != {} { AscendingSize(s - {Least(s)}); }
  }

  /** A duplicate-free list that covers a set is as long as the set is large. */
  lemma {:induction false} SizeOfListing(ids: seq<u64>, s: set<u64>)
    requires Increasing(ids) && forall x :: x in ids <==> x in s
    ensures |ids| == |s|
  {
    if ids == [] {
      assert s == {};
    } else {
      var n := |ids| - 1;
      assert ids == ids[..n] + [ids[n]];
      assert ids[n] !in ids[..n];
      SizeOfListing(ids[..n], s - {ids[n]});
    }
  }

  lemma {:induction false} ImageSize(lbl: string, s: set<u64>, image: set<string>)
    requires image == set x | x in s :: Keyed(lbl, x)
    ensures |image| == |s|
    decreases |s|
  {
    hide ToKey, FromKey, Keyed, TailId;
    if s == {} {
      assert image == {};
    } else {
      var x :| x in s;
      var rest := set y | y in s - {x} :: Keyed(lbl, y);
      forall y | y in s - {x} ensures Keyed(lbl, y) != Keyed(lbl, x) {
        assert TailId(Keyed(lbl, y)) == y && TailId(Keyed(lbl, x)) == x;
      }
      assert image == rest + {Keyed(lbl, x)};
      ImageSize(lbl, s - {x}, rest);
    }
  }

  lemma ProperSubsetIsSmaller(a: set<string>, b: set<string>, extra: string)
    requires a <= b && extra in b && extra !in a
    ensures |a| < |b|
  {
    assert b == a + (b - a) && extra in b - a;
  }

  // ---- when the scans are right ----

  /** With an extended label in use the scan returns too many ids. */
  lemma ExtendedScanTooLong(stod: Stod, w: World, lbl: string)
    requires Inv(stod, w) && lbl != "" && Extended(w, lbl)
    ensures |NodesByLabel(w.db, lbl)| > |NodesLabelled(w, lbl)|
  {
    hide Inv, ToKey, FromKey, LongKeys, NodesByLabel, TailId, Keyed;
    var s := NodesLabelled(w, lbl);
    FoundAreBehindLongKeys(w, lbl);
    var image := set x | x in s :: Keyed(lbl, x);
    ImageSize(lbl, s, image);
    var x :| x in w.labels && w.labels[x] != lbl && StartsWith(w.labels[x], lbl);
    OwnKeyLong(stod, w, lbl, x);
    assert w.labels[x][..|lbl|] == lbl && w.labels[x] != lbl;
    assert |Keyed(w.labels[x], x)| > |lbl| + 8;
    forall k | k in image ensures k in LongKeys(w, lbl) {
      var y :| y in s && k == Keyed(lbl, y);
      OwnKeyLong(stod, w, lbl, y);
    }
    ProperSubsetIsSmaller(image, LongKeys(w, lbl), Keyed(w.labels[x], x));
  }

  /** find_nodes_by_label is exact exactly when no node's label continues the one asked for. */
  lemma FindExactIff(stod: Stod, w: World, lbl: string)
    requires Inv(stod, w) && lbl != ""
    ensures FindExact(w, lbl) <==> !Extended(w, lbl)
  {
    hide NodesInv, IndexInv, RecordsInv, ToKey, FromKey, NodesByLabel, IdsBehind, TailId, Keyed, Ascending;
    if Extended(w, lbl) {
      ExtendedScanTooLong(stod, w, lbl);
      if FindExact(w, lbl) {
        SizeOfListing(NodesByLabel(w.db, lbl), NodesLabelled(w, lbl));
      }
    } else {
      var ks := Ascending(LongKeys(w, lbl));
      forall k | k in ks ensures Labelled(w.labels)[TailId(k)] == lbl {
        VisitedKey(stod, w, lbl, k);
      }
      forall x | x in Labelled(w.labels) && Labelled(w.labels)[x] == lbl ensures Keyed(lbl, x) in ks {
        OwnKeyLong(stod, w, lbl, x);
      }
      ListingOf(Labelled(w.labels), w.db.labelIndex, lbl, ks);
      FoundAreBehindLongKeys(w, lbl);
    }
  }

  /** A label scan, streaming or not, is exact exactly when no node's label continues the one scanned for
      and no intruding key stops the iterator before a key of the label. */
  lemma LabelScanExactIff(stod: Stod, w: World, lbl: string)
    requires Inv(stod, w) && lbl != ""
    ensures ScanExact(w, lbl) <==> !Extended(w, lbl) && !CutOff(w, lbl)
  {
    hide Inv, ToKey, FromKey, NodesByLabel, IteratedByLabel, FindExact, Extended, CutOff, Ascending, IdsBehind, IterateIds;
    FindExactIff(stod, w, lbl);
    if !Extended(w, lbl) {
      var ks := Prefixed(w.db.labelIndex, lbl);
      assert IteratedByLabel(w.db, lbl) == IterateIds(ks, |lbl|) by { BothScan(w.db, lbl); }
      assert NodesByLabel(w.db, lbl) == IdsBehind(ks, |lbl|) by { BothScan(w.db, lbl); }
      IteratorCompleteIff(ks, |lbl|);
      if CutOff(w, lbl) {
        CutOffSplits(stod, w, lbl);
      } else {
        forall i, j | 0 <= i < j < |ks| && !Long(ks[i], |lbl|) ensures !Long(ks[j], |lbl|) {
          assert ks[i] in ks && ks[j] in ks;
          if Long(ks[j], |lbl|) { SplitCutsOff(stod, w, lbl, ks[i], ks[j]); }
        }
      }
    }
  }

  lemma BothScan(d: Db, lbl: string)
    ensures IteratedByLabel(d, lbl) == IterateIds(Prefixed(d.labelIndex, lbl), |lbl|)
    ensures NodesByLabel(d, lbl) == IdsBehind(Prefixed(d.labelIndex, lbl), |lbl|)
  {
    hide IterateIds, IdsBehind;
  }

  lemma CutOffSplits(stod: Stod, w: World, lbl: string)
    requires Inv(stod, w) && lbl != "" && CutOff(w, lbl)
    ensures Split(Prefixed(w.db.labelIndex, lbl), |lbl|)
  {
    hide Inv, ToKey, FromKey, TailId, Keyed, Ascending;
    var ks := Prefixed(w.db.labelIndex, lbl);
    var x, y :| Intrudes(w, lbl, x) && y in w.labels && w.labels[y] == lbl && Less(w.labels[x] + ToKey(x), lbl + ToKey(y));
    KeyIsThere(stod, w, x);
    KeyIsThere(stod, w, y);
    assert StartsWith(lbl + ToKey(y), lbl);
    assert w.labels[x] + ToKey(x) in ks && lbl + ToKey(y) in ks;
    var i :| 0 <= i < |ks| && ks[i] == w.labels[x] + ToKey(x);
    var j :| 0 <= j < |ks| && ks[j] == lbl + ToKey(y);
    LessAsymmetric(ks[i], ks[j]);
    assert i < j && !Long(ks[i], |lbl|) && Long(ks[j], |lbl|);
  }

  lemma SplitCutsOff(stod: Stod, w: World, lbl: string, a: string, b: string)
    requires Inv(stod, w) && lbl != "" && !Extended(w, lbl) && Less(a, b) && !Long(a, |lbl|) && Long(b, |lbl|)
    requires a in w.db.labelIndex && StartsWith(a, lbl) && b in w.db.labelIndex && StartsWith(b, lbl)
    ensures CutOff(w, lbl)
  {
    hide Inv, ToKey, FromKey, TailId, Less;
    VisitedKey(stod, w, lbl, a);
    VisitedKey(stod, w, lbl, b);
    assert Intrudes(w, lbl, TailId(a)) && w.labels[TailId(b)] == lbl;
  }

  // ---- small ids ----

  const TWO56: nat := 0x100_0000_0000_0000

  lemma {:induction false} LeadingZero(v: nat, k: nat)
    requires k > 0 && v < Pow256(k - 1)
    ensures BigEndian(v, k)[0] == '\0'
  {
    if k > 1 { LeadingZero(v / 256, k - 1); }
  }

  lemma SmallIdStartsWithNul(id: u64)
    requires id < TWO56
    ensures ToKey(id)[0] == '\0'
  {
    assert Pow256(4) == 0x1_0000_0000;
    assert Pow256(7) == TWO56;
    LeadingZero(id, 8);
  }

  /** Among NUL-free labels only ids from 2^56 on intrude. */
  lemma SmallIdsDoNotIntrude(w: World, lbl: string)
    requires NulFree(lbl) && forall x :: x in w.labels ==> x < TWO56
    ensures !CutOff(w, lbl)
  {
    forall x: u64 | Intrudes(w, lbl, x) ensures x >= TWO56 { IntruderIsLarge(w, lbl, x); }
  }

  lemma IntruderIsLarge(w: World, lbl: string, x: u64)
    requires NulFree(lbl) && Intrudes(w, lbl, x)
    ensures x >= TWO56
  {
    hide ToKey;
    var k, n := w.labels[x] + ToKey(x), |w.labels[x]|;
    assert lbl[n] == k[..|lbl|][n] == k[n] == ToKey(x)[0];
    if x < TWO56 { SmallIdStartsWithNul(x); }
  }
}
