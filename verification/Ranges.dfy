/** Range queries on the property index (ADR-0010, ADR-0013): the interval scan for a numeric
    threshold, the loop over every entry it replaces, and what the two have to do with each other. */
module Ranges {
  import opened Bytes
  import opened SortableDouble
  import opened Json
  import opened Store
  import opened PropertyIndex
  import opened Runs
  import opened RunResults

  // ---- comparisons ----

  /** The comparison of the loop on two doubles. */
  predicate CompareDoubles(op: string, x: u64, t: u64) {
    if op == "<>" then !DoubleEqual(x, t)
    else if op == ">" then DoubleLess(t, x)
    else if op == "<" then DoubleLess(x, t)
    else if op == ">=" then DoubleLess(t, x) || DoubleEqual(x, t)
    else if op == "<=" then DoubleLess(x, t) || DoubleEqual(x, t)
    else false
  }

  predicate CompareStrings(op: string, x: string, t: string) {
    if op == ">" then Less(t, x)
    else if op == "<" then Less(x, t)
    else if op == ">=" then Leq(t, x)
    else if op == "<=" then Leq(x, t)
    else if op == "<>" then x != t
    else false
  }

  predicate RangeOp(op: string) { op == ">" || op == ">=" || op == "<" || op == "<=" }

  /** The comparison the interval makes: on encodings, bytewise. */
  predicate CompareEncoded(op: string, x: u64, t: u64) {
    if op == ">" then Less(Encode(t), Encode(x))
    else if op == ">=" then Leq(Encode(t), Encode(x))
    else if op == "<" then Less(Encode(x), Encode(t))
    else Leq(Encode(x), Encode(t))
  }

  /** A NaN's place among the encodings is decided by its sign, and by its payload only beside another
      NaN of the same sign. */
  predicate NaNAbove(x: u64, t: u64)
    requires IsNaN(x) || IsNaN(t)
  {
    if IsNaN(x) && IsNaN(t) && Negative(x) == Negative(t) then
      Magnitude(x) != Magnitude(t) && (Magnitude(x) > Magnitude(t) <==> !Negative(x))
    else if IsNaN(x) then !Negative(x)
    else Negative(t)
  }

  /** Where the two comparisons differ: a NaN, which compares with nothing, on the side that is asked
      for, and the two zeros, which are equal numbers in different places. */
  predicate Exceptional(op: string, x: u64, t: u64) {
    if IsNaN(x) || IsNaN(t) then
      if x == t then op == ">=" || op == "<=" else (op == ">" || op == ">=") == NaNAbove(x, t)
    else if x == 0 && t == TWO63 then op == ">" || op == "<="
    else x == TWO63 && t == 0 && (op == ">=" || op == "<")
  }

  lemma NaNPlace(x: u64, t: u64)
    requires (IsNaN(x) || IsNaN(t)) && x != t
    ensures Less(Encode(t), Encode(x)) <==> NaNAbove(x, t)
    ensures Less(Encode(x), Encode(t)) <==> !NaNAbove(x, t)
    ensures Encode(x) != Encode(t)
  {
    hide Less, Encode, Decode;
    EncodeOrder(x, t);
    EncodeOrder(t, x);
    DecodeEncode(x);
    DecodeEncode(t);
  }

  lemma ComparisonsAgreeIff(op: string, x: u64, t: u64)
    requires RangeOp(op)
    ensures CompareEncoded(op, x, t) == CompareDoubles(op, x, t) <==> !Exceptional(op, x, t)
  {
    hide Encode, Scaled, NaNAbove, Less;
    LessIrreflexive(Encode(t));
    if IsNaN(x) || IsNaN(t) {
      if x != t { NaNPlace(x, t); }
    } else {
      if IsZero(x) && IsZero(t) {
        ZeroOrder(x, t);
        ZeroOrder(t, x);
      } else {
        EncodeIsOrderIsomorphism(x, t);
        EncodeIsOrderIsomorphism(t, x);
      }
    }
  }

  lemma ZeroOrder(x: u64, t: u64)
    requires IsZero(x) && IsZero(t)
    ensures DoubleEqual(x, t) && !DoubleLess(x, t) && !DoubleLess(t, x)
    ensures x in {0, TWO63} && t in {0, TWO63}
    ensures Less(Encode(x), Encode(t)) <==> x == TWO63 && t == 0
    ensures Encode(x) == Encode(t) <==> x == t
  {
    EncodeOrder(x, t);
    DecodeEncode(x);
    DecodeEncode(t);
  }

  // ---- the two scans ----

  /** The ids of the visited entries, list after list. */
  function Collect(ix: Table, ks: seq<string>): seq<u64>
    requires forall k :: k in ks ==> k in ix
  {
    if ks == [] then [] else Collect(ix, ks[..|ks| - 1]) + Unpack(ix[ks[|ks| - 1]])
  }

  /** The keys a test accepts, in order. */
  function Keep(ks: seq<string>, f: string -> bool): seq<string> {
    if ks == [] then []
    else Keep(ks[..|ks| - 1], f) + if f(ks[|ks| - 1]) then [ks[|ks| - 1]] else []
  }

  lemma {:induction false} KeepMembers(ks: seq<string>, f: string -> bool)
    ensures forall k :: k in Keep(ks, f) <==> k in ks && f(k)
  {
    if ks != [] {
      KeepMembers(ks[..|ks| - 1], f);
      assert forall k :: k in ks <==> k in ks[..|ks| - 1] || k == ks[|ks| - 1];
    }
  }

  function IntervalKeys(ix: Table, prefix: string, op: string, t: u64): (ks: seq<string>)
    ensures forall k :: k in ks ==> k in ix
  {
    var numeric := prefix + [NUMERIC];
    var threshold := prefix + [NUMERIC] + Encode(t);
    if op == ">" then Interval(ix, Exclusive(threshold), Exclusive(prefix + [STRING]))
    else if op == ">=" then Interval(ix, Inclusive(threshold), Exclusive(prefix + [STRING]))
    else if op == "<=" then Interval(ix, Inclusive(numeric), Inclusive(threshold))
    else Interval(ix, Inclusive(numeric), Exclusive(threshold))
  }

  /** The entry is numeric and compares with the threshold. */
  predicate NumericMatch(k: string, prefix: string, op: string, t: Option<u64>) {
    && |k| > |prefix| && k[|prefix|] == NUMERIC && |k| >= |prefix| + 9
    && t.Some? && CompareDoubles(op, Decode(k[|prefix| + 1..|prefix| + 9]), t.value)
  }

  predicate StringMatch(k: string, prefix: string, op: string, text: string) {
    |k| > |prefix| && k[|prefix|] == STRING && CompareStrings(op, k[|prefix| + 1..], text)
  }

  predicate EntryMatch(k: string, prefix: string, op: string, t: Option<u64>, text: string) {
    NumericMatch(k, prefix, op, t) || StringMatch(k, prefix, op, text)
  }

  /** `find_nodes_by_property_range`: None where it returns false. */
  function NodesByRange(stod: Stod, d: Db, lbl: string, key: string, op: string, text: string): Option<seq<u64>> {
    if lbl == "" then None else
    var prefix := IndexPrefix(lbl, key);
    var t := stod(text);
    if t.Some? && op != "<>" then
      Some(Collect(d.propIndex, IntervalKeys(d.propIndex, prefix, op, t.value)))
    else
      Some(LoopResult(d.propIndex, prefix, op, t, text))
  }

  /** The loop over every entry of the property. */
  function LoopResult(ix: Table, prefix: string, op: string, t: Option<u64>, text: string): seq<u64> {
    KeepMembers(Prefixed(ix, prefix), k => EntryMatch(k, prefix, op, t, text));
    Collect(ix, Keep(Prefixed(ix, prefix), k => EntryMatch(k, prefix, op, t, text)))
  }

  /** What the loop collects from numeric entries. */
  function NumericResult(ix: Table, prefix: string, op: string, t: Option<u64>): seq<u64> {
    KeepMembers(Prefixed(ix, prefix), k => NumericMatch(k, prefix, op, t));
    Collect(ix, Keep(Prefixed(ix, prefix), k => NumericMatch(k, prefix, op, t)))
  }

  /** What the loop collects from string entries. */
  function StringResult(ix: Table, prefix: string, op: string, text: string): seq<u64> {
    KeepMembers(Prefixed(ix, prefix), k => StringMatch(k, prefix, op, text));
    Collect(ix, Keep(Prefixed(ix, prefix), k => StringMatch(k, prefix, op, text)))
  }

  // ---- the interval holds exactly the matching numeric entries ----

  /** The entries of a property are its prefix followed by a canonical value. */
  lemma EntryShape(stod: Stod, ix: Table, lbl: string, key: string, k: string)
    returns (value: string)
    requires KeysBuilt(stod, ix) && NulFree(lbl) && NulFree(key) && k in ix
    requires StartsWith(k, IndexPrefix(lbl, key))
    ensures k == IndexPrefix(lbl, key) + Canon(stod, value)
  {
    var l, p, v :| NulFree(l) && NulFree(p) && k == BuildKey(stod, l, p, v);
    hide NulFree, IndexPrefix, Canon;
    PrefixDecodes(l, p, Canon(stod, v), lbl, key);
    value := v;
  }

  /** A number's entry lies in the interval exactly when its encoding compares; a string's never. */
  predicate InInterval(k: string, prefix: string, op: string, t: u64) {
    var numeric := prefix + [NUMERIC];
    var threshold := prefix + [NUMERIC] + Encode(t);
    if op == ">" then Less(threshold, k) && Less(k, prefix + [STRING])
    else if op == ">=" then Leq(threshold, k) && Less(k, prefix + [STRING])
    else if op == "<=" then Leq(numeric, k) && Leq(k, threshold)
    else Leq(numeric, k) && Less(k, threshold)
  }

  lemma NumberInInterval(prefix: string, x: u64, op: string, t: u64)
    requires RangeOp(op)
    ensures InInterval(prefix + ([NUMERIC] + Encode(x)), prefix, op, t) <==> CompareEncoded(op, x, t)
  {
    hide Encode;
    var e, te := [NUMERIC] + Encode(x), [NUMERIC] + Encode(t);
    assert prefix + [NUMERIC] + Encode(t) == prefix + te;
    LessCommonPrefix(prefix, e, te);
    LessCommonPrefix(prefix, te, e);
    LessCommonPrefix([NUMERIC], Encode(x), Encode(t));
    LessCommonPrefix([NUMERIC], Encode(t), Encode(x));
    LessCommonPrefix(prefix, e, [STRING]);
    LessCommonPrefix(prefix, [NUMERIC], e);
    assert Less([NUMERIC], e) && Less(e, [STRING]) by { assert e[1..] == Encode(x); }
    assert e == te <==> Encode(x) == Encode(t) by { assert e[1..] == Encode(x) && te[1..] == Encode(t); }
    assert prefix + e == prefix + te <==> e == te by {
      assert (prefix + e)[|prefix|..] == e && (prefix + te)[|prefix|..] == te;
    }
  }

  lemma StringOutsideInterval(prefix: string, v: string, op: string, t: u64)
    requires RangeOp(op)
    ensures !InInterval(prefix + ([STRING] + v), prefix, op, t)
  {
    hide Encode;
    var s, te := [STRING] + v, [NUMERIC] + Encode(t);
    assert prefix + [NUMERIC] + Encode(t) == prefix + te;
    LessCommonPrefix(prefix, s, [STRING]);
    LessCommonPrefix(prefix, s, te);
    assert s[1..] == v;
    assert prefix + s != prefix + te by {
      assert (prefix + s)[|prefix|] == STRING && (prefix + te)[|prefix|] == NUMERIC;
    }
  }

  lemma IntervalSharesPrefix(prefix: string, k: string, op: string, t: u64)
    requires RangeOp(op) && InInterval(k, prefix, op, t)
    ensures StartsWith(k, prefix)
  {
    hide Encode;
    var te := [NUMERIC] + Encode(t);
    assert prefix + [NUMERIC] + Encode(t) == prefix + te;
    if op == ">" || op == ">=" {
      BetweenSharesPrefix(prefix, te, [STRING], k);
    } else if k == prefix + te {
      assert k[..|prefix|] == prefix;
    } else {
      BetweenSharesPrefix(prefix, [NUMERIC], te, k);
    }
  }

  lemma NumericEntry(prefix: string, x: u64)
    ensures var k := prefix + ([NUMERIC] + Encode(x));
      && |k| == |prefix| + 9 && k[|prefix|] == NUMERIC && k[|prefix| + 1..|prefix| + 9] == Encode(x)
      && Decode(k[|prefix| + 1..|prefix| + 9]) == x
  {
    var k := prefix + ([NUMERIC] + Encode(x));
    DecodeEncode(x);
    hide Encode, Decode;
    assert k[|prefix| + 1..|prefix| + 9] == Encode(x);
  }

  // ---- the scans as lists ----

  lemma {:induction false} KeepSame(ks: seq<string>, f: string -> bool, g: string -> bool)
    requires forall k :: k in ks ==> f(k) == g(k)
    ensures Keep(ks, f) == Keep(ks, g)
  {
    if ks != [] {
      assert ks[|ks| - 1] in ks && forall k :: k in ks[..|ks| - 1] ==> k in ks;
      KeepSame(ks[..|ks| - 1], f, g);
    }
  }

  lemma {:induction false} KeepAscending(ks: seq<string>, f: string -> bool)
    requires StrictlyAscending(ks)
    ensures StrictlyAscending(Keep(ks, f))
  {
    if ks != [] {
      var n := |ks| - 1;
      KeepAscending(ks[..n], f);
      KeepMembers(ks[..n], f);
      var r := Keep(ks[..n], f);
      forall i | 0 <= i < |r| ensures Less(r[i], ks[n]) {
        assert r[i] in ks[..n];
        var j :| 0 <= j < n && ks[j] == r[i];
      }
    }
  }

  lemma CollectStep(ix: Table, ks: seq<string>, k: string)
    requires (forall j :: j in ks ==> j in ix) && k in ix
    ensures forall j :: j in ks + [k] ==> j in ix
    ensures Collect(ix, ks + [k]) == Collect(ix, ks) + Listed(ix, k)
  {
    hide Unpack;
    assert (ks + [k])[..|ks|] == ks;
  }

  lemma {:induction false} CollectAppend(ix: Table, a: seq<string>, b: seq<string>)
    requires (forall k :: k in a ==> k in ix) && forall k :: k in b ==> k in ix
    ensures forall k :: k in a + b ==> k in ix
    ensures Collect(ix, a + b) == Collect(ix, a) + Collect(ix, b)
  {
    hide Collect, Listed;
    if b == [] {
      assert a + b == a && Collect(ix, b) == [] by { CollectNone(ix); }
    } else {
      var c, k := b[..|b| - 1], b[|b| - 1];
      assert b == c + [k] && a + b == (a + c) + [k];
      CollectAppend(ix, a, c);
      CollectStep(ix, c, k);
      CollectStep(ix, a + c, k);
    }
  }

  lemma CollectNone(ix: Table)
    ensures Collect(ix, []) == []
  {
  }

  lemma {:induction false} KeepNone(ks: seq<string>, g: string -> bool)
    requires forall i :: 0 <= i < |ks| ==> !g(ks[i])
    ensures Keep(ks, g) == []
  {
    if ks != [] { KeepNone(ks[..|ks| - 1], g); }
  }

  lemma {:induction false} KeepAppend(a: seq<string>, b: seq<string>, f: string -> bool)
    ensures Keep(a + b, f) == Keep(a, f) + Keep(b, f)
  {
    if b == [] {
      assert a + b == a;
    } else {
      var n := |b| - 1;
      KeepAppend(a, b[..n], f);
      assert (a + b)[..|a + b| - 1] == a + b[..n];
    }
  }

  /** Where the g-keys begin. */
  function FirstKept(ks: seq<string>, g: string -> bool): (n: nat)
    ensures n <= |ks| && (n < |ks| ==> g(ks[n]))
    ensures forall i :: 0 <= i < n ==> !g(ks[i])
  {
    if ks == [] || g(ks[0]) then 0 else 1 + FirstKept(ks[1..], g)
  }

  /** With f-keys only in a and g-keys only in b, keeping either is keeping one and then the other. */
  lemma KeepEither(a: seq<string>, b: seq<string>, f: string -> bool, g: string -> bool, h: string -> bool)
    requires forall k :: h(k) == (f(k) || g(k))
    requires forall i :: 0 <= i < |a| ==> !g(a[i])
    requires forall i :: 0 <= i < |b| ==> !f(b[i])
    ensures Keep(a + b, h) == Keep(a + b, f) + Keep(a + b, g)
  {
    KeepNone(a, g);
    KeepNone(b, f);
    KeepSame(a, h, f);
    KeepSame(b, h, g);
    KeepAppend(a, b, f);
    KeepAppend(a, b, g);
    KeepAppend(a, b, h);
    hide Keep;
  }

  lemma IntervalKeysAre(ix: Table, prefix: string, op: string, t: u64)
    requires RangeOp(op)
    ensures StrictlyAscending(IntervalKeys(ix, prefix, op, t))
    ensures forall k :: k in IntervalKeys(ix, prefix, op, t) <==> k in ix && InInterval(k, prefix, op, t)
  {
    hide Encode, Less, Ascending;
  }

  /** Numeric entries come before string entries. */
  lemma NumbersBeforeStrings(ks: seq<string>, prefix: string, op: string, t: u64, text: string, i: nat, j: nat)
    requires StrictlyAscending(ks) && i <= j < |ks|
    requires StartsWith(ks[i], prefix) && StartsWith(ks[j], prefix)
    ensures StringMatch(ks[i], prefix, op, text) ==> !NumericMatch(ks[j], prefix, op, Some(t))
  {
    hide CompareDoubles, CompareStrings, Decode;
    if StringMatch(ks[i], prefix, op, text) && i < j {
      var a, b := ks[i][|prefix|..], ks[j][|prefix|..];
      assert ks[i] == prefix + a && ks[j] == prefix + b;
      LessCommonPrefix(prefix, a, b);
      assert a[0] == STRING && Less(a, b);
    }
  }

  /** The loop collects numbers and then strings. */
  lemma LoopIsNumbersThenStrings(ix: Table, prefix: string, op: string, t: u64, text: string)
    ensures LoopResult(ix, prefix, op, Some(t), text)
         == NumericResult(ix, prefix, op, Some(t)) + StringResult(ix, prefix, op, text)
  {
    hide NumericMatch, StringMatch, Keep, Collect, Ascending;
    var ks := Prefixed(ix, prefix);
    var f := k => NumericMatch(k, prefix, op, Some(t));
    var g := k => StringMatch(k, prefix, op, text);
    var h := k => EntryMatch(k, prefix, op, Some(t), text);
    var n := FirstKept(ks, g);
    var b := ks[n..];
    forall i | 0 <= i < |b| ensures !f(b[i]) {
      assert ks[n] in ks && ks[n + i] in ks;
      NumbersBeforeStrings(ks, prefix, op, t, text, n, n + i);
    }
    assert ks == ks[..n] + b;
    KeepEither(ks[..n], b, f, g, h);
    KeepMembers(ks, f);
    KeepMembers(ks, g);
    CollectAppend(ix, Keep(ks, f), Keep(ks, g));
  }

  // ---- what the scans find ----

  /** The text has this number under the key. */
  ghost predicate HasNumber(stod: Stod, text: string, key: string, x: u64) {
    exists f :: f in Parse(text) && f.key == key && f.value != "" && stod(f.value) == Some(x)
  }

  function NumberKey(lbl: string, key: string, x: u64): string {
    IndexPrefix(lbl, key) + ([NUMERIC] + Encode(x))
  }

  lemma HoldsNumber(stod: Stod, lbl: string, text: string, lbl': string, key: string, x: u64)
    requires NulFree(lbl) && ValidText(text) && NulFree(lbl') && NulFree(key) && lbl' != ""
    ensures Holds(stod, lbl, text, NumberKey(lbl', key, x)) <==> lbl == lbl' && HasNumber(stod, text, key, x)
  {
    hide NulFree, Parse, Encode, IndexPrefix;
    var k := NumberKey(lbl', key, x);
    if Holds(stod, lbl, text, k) {
      var f :| f in Parse(text) && BuildKey(stod, lbl, f.key, f.value) == k;
      var i :| 0 <= i < |Parse(text)| && Parse(text)[i] == f;
      assert StartsWith(k, IndexPrefix(lbl', key));
      PrefixDecodes(lbl, f.key, Canon(stod, f.value), lbl', key);
      CanonIsNumber(stod, IndexPrefix(lbl', key), f.value, x);
    }
    if lbl == lbl' && HasNumber(stod, text, key, x) {
      var f :| f in Parse(text) && f.key == key && f.value != "" && stod(f.value) == Some(x);
      assert BuildKey(stod, lbl, f.key, f.value) == k;
    }
  }

  lemma CanonIsNumber(stod: Stod, prefix: string, value: string, x: u64)
    ensures prefix + Canon(stod, value) == prefix + ([NUMERIC] + Encode(x)) <==> value != "" && stod(value) == Some(x)
  {
    hide Encode, Decode;
    var e := [NUMERIC] + Encode(x);
    DecodeEncode(x);
    assert e[1..] == Encode(x);
    assert (prefix + Canon(stod, value))[|prefix|..] == Canon(stod, value) && (prefix + e)[|prefix|..] == e;
    if value != "" && stod(value).Some? {
      DecodeEncode(stod(value).value);
      assert Canon(stod, value)[1..] == Encode(stod(value).value);
    }
  }

  lemma NumberListed(stod: Stod, w: World, lbl: string, key: string, x: u64, id: u64)
    requires Inv(stod, w) && NulFree(lbl) && NulFree(key) && lbl != ""
    ensures id in Listed(w.db.propIndex, NumberKey(lbl, key, x))
       <==> id in w.labels && w.labels[id] == lbl && HasNumber(stod, LastText(w, id), key, x)
  {
    hide Inv, NulFree, ValidText, LastText, Holds, HasNumber, NumberKey, Listed;
    ListIs(stod, w, NumberKey(lbl, key, x));
    if id in w.labels {
      LastIsValid(stod, w, id);
      HoldsNumber(stod, w.labels[id], LastText(w, id), lbl, key, x);
    }
  }

  /** A valid text has one value per key. */
  lemma OneNumber(stod: Stod, text: string, key: string, x: u64, y: u64)
    requires ValidText(text) && HasNumber(stod, text, key, x) && HasNumber(stod, text, key, y)
    ensures x == y
  {
    hide NulFree, Parse;
    var f :| f in Parse(text) && f.key == key && f.value != "" && stod(f.value) == Some(x);
    var g :| g in Parse(text) && g.key == key && g.value != "" && stod(g.value) == Some(y);
    var i :| 0 <= i < |Parse(text)| && Parse(text)[i] == f;
    var j :| 0 <= j < |Parse(text)| && Parse(text)[j] == g;
  }

  lemma {:induction false} CollectMembers(ix: Table, ks: seq<string>, x: u64)
    requires forall k :: k in ks ==> k in ix
    ensures x in Collect(ix, ks) <==> exists k :: k in ks && x in Listed(ix, k)
  {
    hide Unpack;
    if ks != [] {
      var n := |ks| - 1;
      assert forall k :: k in ks <==> k in ks[..n] || k == ks[n];
      CollectMembers(ix, ks[..n], x);
      assert Listed(ix, ks[n]) == Unpack(ix[ks[n]]);
      if x in Unpack(ix[ks[n]]) { assert ks[n] in ks && x in Listed(ix, ks[n]); }
      if k :| k in ks && x in Listed(ix, k) {
        if k in ks[..n] { assert x in Collect(ix, ks[..n]); }
      }
    }
  }

  /** An entry of a property is a number's or a string's. */
  datatype Shape = Number(x: u64) | Text(v: string)

  lemma ShapeOf(stod: Stod, ix: Table, lbl: string, key: string, k: string) returns (s: Shape)
    requires KeysBuilt(stod, ix) && NulFree(lbl) && NulFree(key) && k in ix
    requires StartsWith(k, IndexPrefix(lbl, key))
    ensures s.Number? ==> k == NumberKey(lbl, key, s.x)
    ensures s.Text? ==> k == IndexPrefix(lbl, key) + ([STRING] + s.v) && (s.v == "" || stod(s.v).None?)
  {
    hide KeysBuilt, NulFree, IndexPrefix, Encode;
    var v := EntryShape(stod, ix, lbl, key, k);
    s := if v != "" && stod(v).Some? then Number(stod(v).value) else Text(v);
  }

  lemma IndexIsBuilt(stod: Stod, w: World)
    requires Inv(stod, w)
    ensures KeysBuilt(stod, w.db.propIndex) && WellPacked(w.db.propIndex)
  {
    hide NodesInv, RecordsInv, IndexedBy, IdsInv, KeysBuilt, WellPacked;
  }

  /** The interval scan finds the nodes whose number, or last number, compares bytewise. */
  lemma IntervalMembers(stod: Stod, w: World, lbl: string, key: string, op: string, t: u64, id: u64)
    requires Inv(stod, w) && NulFree(lbl) && NulFree(key) && lbl != "" && RangeOp(op)
    ensures id in Collect(w.db.propIndex, IntervalKeys(w.db.propIndex, IndexPrefix(lbl, key), op, t))
       <==> id in w.labels && w.labels[id] == lbl && exists x :: HasNumber(stod, LastText(w, id), key, x) && CompareEncoded(op, x, t)
  {
    hide Inv, NulFree, LastText, HasNumber, Collect, IntervalKeys, InInterval, IndexPrefix, CompareEncoded, Encode, KeysBuilt,
      WellPacked, Unpack;
    var ix, prefix := w.db.propIndex, IndexPrefix(lbl, key);
    IndexIsBuilt(stod, w);
    IntervalKeysAre(ix, prefix, op, t);
    CollectMembers(ix, IntervalKeys(ix, prefix, op, t), id);
    if k :| k in ix && InInterval(k, prefix, op, t) && id in Listed(ix, k) {
      IntervalSharesPrefix(prefix, k, op, t);
      var s := ShapeOf(stod, ix, lbl, key, k);
      if s.Text? {
        StringOutsideInterval(prefix, s.v, op, t);
        assert false;
      } else {
        NumberInInterval(prefix, s.x, op, t);
        NumberListed(stod, w, lbl, key, s.x, id);
      }
    }
    if x :| id in w.labels && w.labels[id] == lbl && HasNumber(stod, LastText(w, id), key, x) && CompareEncoded(op, x, t) {
      NumberInInterval(prefix, x, op, t);
      NumberListed(stod, w, lbl, key, x, id);
    }
  }

  lemma NumericResultMembers(ix: Table, prefix: string, op: string, t: Option<u64>, x: u64)
    ensures x in NumericResult(ix, prefix, op, t)
       <==> exists k :: k in ix && StartsWith(k, prefix) && NumericMatch(k, prefix, op, t) && x in Listed(ix, k)
  {
    hide NumericMatch, Unpack;
    var ks := Keep(Prefixed(ix, prefix), k => NumericMatch(k, prefix, op, t));
    KeepMembers(Prefixed(ix, prefix), k => NumericMatch(k, prefix, op, t));
    CollectMembers(ix, ks, x);
    hide Keep, Collect, Listed;
    if k :| k in ix && StartsWith(k, prefix) && NumericMatch(k, prefix, op, t) && x in Listed(ix, k) {
      assert k in ks;
    }
  }

  lemma NumberMatches(lbl: string, key: string, x: u64, op: string, t: u64)
    ensures var prefix := IndexPrefix(lbl, key);
      && StartsWith(NumberKey(lbl, key, x), prefix)
      && (NumericMatch(NumberKey(lbl, key, x), prefix, op, Some(t)) <==> CompareDoubles(op, x, t))
  {
    hide Encode, Decode, CompareDoubles, IndexPrefix;
    NumericEntry(IndexPrefix(lbl, key), x);
  }

  /** The loop finds the nodes whose number, or last number, compares as a number. */
  lemma NumericMembers(stod: Stod, w: World, lbl: string, key: string, op: string, t: u64, id: u64)
    requires Inv(stod, w) && NulFree(lbl) && NulFree(key) && lbl != ""
    ensures id in NumericResult(w.db.propIndex, IndexPrefix(lbl, key), op, Some(t))
       <==> id in w.labels && w.labels[id] == lbl && exists x :: HasNumber(stod, LastText(w, id), key, x) && CompareDoubles(op, x, t)
  {
    hide Inv, NulFree, LastText, HasNumber, NumericResult, IndexPrefix, CompareDoubles, NumberKey, KeysBuilt, WellPacked,
      Unpack, Decode;
    var ix, prefix := w.db.propIndex, IndexPrefix(lbl, key);
    IndexIsBuilt(stod, w);
    NumericResultMembers(ix, prefix, op, Some(t), id);
    if k :| k in ix && StartsWith(k, prefix) && NumericMatch(k, prefix, op, Some(t)) && id in Listed(ix, k) {
      var s := ShapeOf(stod, ix, lbl, key, k);
      if s.Number? {
        NumberMatches(lbl, key, s.x, op, t);
        NumberListed(stod, w, lbl, key, s.x, id);
      }
    }
    if x :| id in w.labels && w.labels[id] == lbl && HasNumber(stod, LastText(w, id), key, x) && CompareDoubles(op, x, t) {
      NumberMatches(lbl, key, x, op, t);
      NumberListed(stod, w, lbl, key, x, id);
    }
  }

  /** The text has this value under the key, and it does not read as a number. */
  predicate HasString(stod: Stod, text: string, key: string, v: string) {
    Field(key, v) in Parse(text) && (v == "" || stod(v).None?)
  }

  function StringKey(lbl: string, key: string, v: string): string {
    IndexPrefix(lbl, key) + ([STRING] + v)
  }

  lemma StringListed(stod: Stod, w: World, lbl: string, key: string, v: string, id: u64)
    requires Inv(stod, w) && NulFree(lbl) && NulFree(key) && lbl != "" && (v == "" || stod(v).None?)
    ensures id in Listed(w.db.propIndex, StringKey(lbl, key, v))
       <==> id in w.labels && w.labels[id] == lbl && HasString(stod, LastText(w, id), key, v)
  {
    hide Inv, NulFree, LastText, IndexPrefix, Unpack, Parse;
    LookupAnswers(stod, w, lbl, key, v);
    assert StringKey(lbl, key, v) == BuildKey(stod, lbl, key, v);
    if id in w.labels { StringCanon(stod, LastText(w, id), key, v); }
  }

  /** Only the string itself has its canonical form. */
  lemma StringCanon(stod: Stod, text: string, key: string, v: string)
    requires v == "" || stod(v).None?
    ensures HasCanon(stod, text, key, v) <==> HasString(stod, text, key, v)
  {
    hide Parse, Encode;
    if HasCanon(stod, text, key, v) {
      var f :| f in Parse(text) && f.key == key && Canon(stod, f.value) == Canon(stod, v);
      assert Canon(stod, f.value)[0] == STRING && Canon(stod, f.value)[1..] == f.value && Canon(stod, v)[1..] == v;
      assert f == Field(key, v);
    }
  }

  lemma StringMatches(lbl: string, key: string, v: string, op: string, text: string)
    ensures var prefix := IndexPrefix(lbl, key);
      && StartsWith(StringKey(lbl, key, v), prefix)
      && (EntryMatch(StringKey(lbl, key, v), prefix, op, None, text) <==> CompareStrings(op, v, text))
  {
    hide CompareStrings, CompareDoubles, IndexPrefix;
    var k, prefix := StringKey(lbl, key, v), IndexPrefix(lbl, key);
    assert k[|prefix| + 1..] == v;
  }

  lemma LoopMembers(ix: Table, prefix: string, op: string, t: Option<u64>, text: string, x: u64)
    ensures x in LoopResult(ix, prefix, op, t, text)
       <==> exists k :: k in ix && StartsWith(k, prefix) && EntryMatch(k, prefix, op, t, text) && x in Listed(ix, k)
  {
    hide EntryMatch, Unpack;
    var ks := Keep(Prefixed(ix, prefix), k => EntryMatch(k, prefix, op, t, text));
    KeepMembers(Prefixed(ix, prefix), k => EntryMatch(k, prefix, op, t, text));
    CollectMembers(ix, ks, x);
    hide Keep, Collect, Listed;
    if k :| k in ix && StartsWith(k, prefix) && EntryMatch(k, prefix, op, t, text) && x in Listed(ix, k) {
      assert k in ks;
    }
  }

  /** For a threshold that is no number the loop finds the nodes whose string, or last string, compares. */
  lemma StringMembers(stod: Stod, w: World, lbl: string, key: string, op: string, text: string, id: u64)
    requires Inv(stod, w) && NulFree(lbl) && NulFree(key) && lbl != ""
    ensures id in LoopResult(w.db.propIndex, IndexPrefix(lbl, key), op, None, text)
       <==> id in w.labels && w.labels[id] == lbl && exists v :: HasString(stod, LastText(w, id), key, v) && CompareStrings(op, v, text)
  {
    hide Inv, NulFree, LastText, LoopResult, IndexPrefix, CompareStrings, CompareDoubles, NumberKey, KeysBuilt, WellPacked,
      Unpack, Decode, Parse, EntryMatch, Listed;
    var ix, prefix := w.db.propIndex, IndexPrefix(lbl, key);
    IndexIsBuilt(stod, w);
    LoopMembers(ix, prefix, op, None, text, id);
    if k :| k in ix && StartsWith(k, prefix) && EntryMatch(k, prefix, op, None, text) && id in Listed(ix, k) {
      var s := ShapeOf(stod, ix, lbl, key, k);
      if s.Text? {
        StringMatches(lbl, key, s.v, op, text);
        StringListed(stod, w, lbl, key, s.v, id);
      } else {
        NumberIsNoString(lbl, key, s.x, op, text);
      }
    }
    if v :| id in w.labels && w.labels[id] == lbl && HasString(stod, LastText(w, id), key, v) && CompareStrings(op, v, text) {
      StringMatches(lbl, key, v, op, text);
      StringListed(stod, w, lbl, key, v, id);
      ListedIsKey(ix, StringKey(lbl, key, v), id);
    }
  }

  lemma NumberIsNoString(lbl: string, key: string, x: u64, op: string, text: string)
    ensures !EntryMatch(NumberKey(lbl, key, x), IndexPrefix(lbl, key), op, None, text)
  {
    hide CompareStrings, CompareDoubles, Encode, Decode, IndexPrefix;
    assert NumberKey(lbl, key, x)[|IndexPrefix(lbl, key)|] == NUMERIC;
  }

  lemma ListedIsKey(ix: Table, k: string, id: u64)
    requires id in Listed(ix, k)
    ensures k in ix
  {
    hide Unpack;
  }

  // ---- what a range query answers, operator by operator ----

  /** The ids of a range query; every label but the empty one gets an answer. */
  function RangeIds(stod: Stod, d: Db, lbl: string, key: string, op: string, text: string): seq<u64>
    requires lbl != ""
  {
    NodesByRange(stod, d, lbl, key, op, text).value
  }

  /** A node whose string, or last string, is v, and a threshold that is no number. */
  lemma StringThreshold(stod: Stod, w: World, lbl: string, key: string, text: string, id: u64, v: string)
    requires Inv(stod, w) && NulFree(lbl) && NulFree(key) && lbl != "" && stod(text).None?
    requires id in w.labels && w.labels[id] == lbl && HasString(stod, LastText(w, id), key, v)
    ensures id in RangeIds(stod, w.db, lbl, key, ">", text) <==> Less(text, v)
    ensures id in RangeIds(stod, w.db, lbl, key, "<", text) <==> Less(v, text)
    ensures id in RangeIds(stod, w.db, lbl, key, ">=", text) <==> v == text || Less(text, v)
    ensures id in RangeIds(stod, w.db, lbl, key, "<=", text) <==> v == text || Less(v, text)
    ensures id in RangeIds(stod, w.db, lbl, key, "<>", text) <==> v != text
  {
    hide Inv, NulFree, LastText, LoopResult, IndexPrefix, HasString, ValidText, Less, CompareStrings;
    var last := LastText(w, id);
    LastIsValid(stod, w, id);
    forall u | HasString(stod, last, key, u) ensures u == v { OneString(stod, last, key, u, v); }
    forall op ensures id in RangeIds(stod, w.db, lbl, key, op, text) <==> CompareStrings(op, v, text) {
      StringMembers(stod, w, lbl, key, op, text, id);
    }
    StringOperators(v, text);
  }

  lemma StringOperators(v: string, t: string)
    ensures CompareStrings(">", v, t) <==> Less(t, v)
    ensures CompareStrings("<", v, t) <==> Less(v, t)
    ensures CompareStrings(">=", v, t) <==> v == t || Less(t, v)
    ensures CompareStrings("<=", v, t) <==> v == t || Less(v, t)
    ensures CompareStrings("<>", v, t) <==> v != t
  {
    hide Less;
  }

  lemma OneString(stod: Stod, text: string, key: string, v: string, u: string)
    requires ValidText(text) && HasString(stod, text, key, v) && HasString(stod, text, key, u)
    ensures v == u
  {
    hide NulFree, Parse;
    var i :| 0 <= i < |Parse(text)| && Parse(text)[i] == Field(key, v);
    var j :| 0 <= j < |Parse(text)| && Parse(text)[j] == Field(key, u);
  }

  /** A node whose number, or last number, is x, and a threshold that is a number: comparisons are those of
      real values, but for the exceptional numbers. */
  lemma NumberThreshold(stod: Stod, w: World, lbl: string, key: string, text: string, id: u64, x: u64)
    requires Inv(stod, w) && NulFree(lbl) && NulFree(key) && lbl != "" && stod(text).Some?
    requires id in w.labels && w.labels[id] == lbl && HasNumber(stod, LastText(w, id), key, x)
    ensures var t := stod(text).value;
      && (!Exceptional(">", x, t) ==>
            (id in RangeIds(stod, w.db, lbl, key, ">", text) <==> Ordinary(x, t) && Scaled(t) < Scaled(x)))
      && (!Exceptional("<", x, t) ==>
            (id in RangeIds(stod, w.db, lbl, key, "<", text) <==> Ordinary(x, t) && Scaled(x) < Scaled(t)))
      && (!Exceptional(">=", x, t) ==>
            (id in RangeIds(stod, w.db, lbl, key, ">=", text) <==> Ordinary(x, t) && Scaled(t) <= Scaled(x)))
      && (!Exceptional("<=", x, t) ==>
            (id in RangeIds(stod, w.db, lbl, key, "<=", text) <==> Ordinary(x, t) && Scaled(x) <= Scaled(t)))
      && (id in RangeIds(stod, w.db, lbl, key, "<>", text) <==> !(Ordinary(x, t) && Scaled(x) == Scaled(t)))
  {
    hide Inv, NulFree, LastText, Collect, IntervalKeys, NumericResult, StringResult, LoopResult, IndexPrefix, HasNumber, CompareEncoded,
      CompareDoubles, Exceptional, Scaled, IsNaN;
    var t := stod(text).value;
    NumberOperators(x, t);
    forall op | RangeOp(op) && !Exceptional(op, x, t)
      ensures id in RangeIds(stod, w.db, lbl, key, op, text) <==> CompareDoubles(op, x, t)
    {
      ExceptionSeparates(stod, w, lbl, key, op, t, id, x);
      ComparisonsAgreeIff(op, x, t);
    }
    UnequalNumbers(stod, w, lbl, key, text, id, x);
  }

  /** Neither is a NaN. */
  predicate Ordinary(x: u64, t: u64) {
    !IsNaN(x) && !IsNaN(t)
  }

  lemma NumberOperators(x: u64, t: u64)
    ensures CompareDoubles(">", x, t) <==> Ordinary(x, t) && Scaled(t) < Scaled(x)
    ensures CompareDoubles("<", x, t) <==> Ordinary(x, t) && Scaled(x) < Scaled(t)
    ensures CompareDoubles(">=", x, t) <==> Ordinary(x, t) && Scaled(t) <= Scaled(x)
    ensures CompareDoubles("<=", x, t) <==> Ordinary(x, t) && Scaled(x) <= Scaled(t)
    ensures CompareDoubles("<>", x, t) <==> !(Ordinary(x, t) && Scaled(x) == Scaled(t))
  {
    hide Scaled, IsNaN;
  }

  /** The loop for <> collects numbers by value. */
  lemma UnequalNumbers(stod: Stod, w: World, lbl: string, key: string, text: string, id: u64, x: u64)
    requires Inv(stod, w) && NulFree(lbl) && NulFree(key) && lbl != "" && stod(text).Some?
    requires id in w.labels && w.labels[id] == lbl && HasNumber(stod, LastText(w, id), key, x)
    ensures id in RangeIds(stod, w.db, lbl, key, "<>", text) <==> CompareDoubles("<>", x, stod(text).value)
  {
    hide Inv, NulFree, LastText, NumericResult, StringResult, LoopResult, IndexPrefix, HasNumber, CompareDoubles, ValidText,
      Listed, KeysBuilt, WellPacked;
    var t, ix, prefix := stod(text).value, w.db.propIndex, IndexPrefix(lbl, key);
    assert stod(text) == Some(t);
    assert RangeIds(stod, w.db, lbl, key, "<>", text) == LoopResult(ix, prefix, "<>", Some(t), text);
    LoopIsNumbersThenStrings(ix, prefix, "<>", t, text);
    NumericMembers(stod, w, lbl, key, "<>", t, id);
    LastIsValid(stod, w, id);
    forall y | HasNumber(stod, LastText(w, id), key, y) ensures y == x { OneNumber(stod, LastText(w, id), key, x, y); }
    StringResultMembers(ix, prefix, "<>", text, id);
    if k :| k in ix && StartsWith(k, prefix) && StringMatch(k, prefix, "<>", text) && id in Listed(ix, k) {
      NumberIsNotListedAsString(stod, w, lbl, key, id, x, k);
    }
  }

  lemma NumberIsNotListedAsString(stod: Stod, w: World, lbl: string, key: string, id: u64, x: u64, k: string)
    requires Inv(stod, w) && NulFree(lbl) && NulFree(key) && lbl != ""
    requires id in w.labels && HasNumber(stod, LastText(w, id), key, x)
    requires k in w.db.propIndex && StartsWith(k, IndexPrefix(lbl, key)) && |k| > |IndexPrefix(lbl, key)|
    requires k[|IndexPrefix(lbl, key)|] == STRING
    ensures id !in Listed(w.db.propIndex, k)
  {
    hide Inv, NulFree, LastText, IndexPrefix, ValidText, Listed, KeysBuilt, WellPacked, Parse, Encode;
    IndexIsBuilt(stod, w);
    var s := ShapeOf(stod, w.db.propIndex, lbl, key, k);
    LastIsValid(stod, w, id);
    if s.Text? {
      StringListed(stod, w, lbl, key, s.v, id);
      if HasString(stod, LastText(w, id), key, s.v) { NumberIsTheValue(stod, LastText(w, id), key, x, s.v); }
    }
  }

  lemma NumberIsTheValue(stod: Stod, text: string, key: string, x: u64, v: string)
    requires ValidText(text) && HasNumber(stod, text, key, x) && Field(key, v) in Parse(text)
    ensures v != "" && stod(v) == Some(x)
  {
    hide NulFree, Parse;
    var f :| f in Parse(text) && f.key == key && f.value != "" && stod(f.value) == Some(x);
    var i :| 0 <= i < |Parse(text)| && Parse(text)[i] == f;
    var j :| 0 <= j < |Parse(text)| && Parse(text)[j] == Field(key, v);
  }

  lemma StringResultMembers(ix: Table, prefix: string, op: string, text: string, x: u64)
    ensures x in StringResult(ix, prefix, op, text)
       <==> exists k :: k in ix && StartsWith(k, prefix) && StringMatch(k, prefix, op, text) && x in Listed(ix, k)
  {
    hide StringMatch, Unpack;
    var ks := Keep(Prefixed(ix, prefix), k => StringMatch(k, prefix, op, text));
    KeepMembers(Prefixed(ix, prefix), k => StringMatch(k, prefix, op, text));
    CollectMembers(ix, ks, x);
    hide Keep, Collect, Listed;
    if k :| k in ix && StartsWith(k, prefix) && StringMatch(k, prefix, op, text) && x in Listed(ix, k) {
      assert k in ks;
    }
  }

  // ---- the interval scan against the loop ----

  /** No node of the label has, or had when it was deleted, an exceptional number under the key. */
  ghost predicate NoneExceptional(stod: Stod, w: World, lbl: string, key: string, op: string, t: u64) {
    forall id, x :: id in w.labels && w.labels[id] == lbl && HasNumber(stod, LastText(w, id), key, x) ==> !Exceptional(op, x, t)
  }

  lemma {:induction false} CollectSkipsEmpty(ix: Table, ks: seq<string>, f: string -> bool)
    requires (forall k :: k in ks ==> k in ix) && forall k :: f(k) == (Listed(ix, k) != [])
    ensures forall k :: k in Keep(ks, f) ==> k in ix
    ensures Collect(ix, ks) == Collect(ix, Keep(ks, f))
  {
    hide Collect, Listed, Keep;
    KeepMembers(ks, f);
    if ks == [] {
      KeepNone(ks, f);
    } else {
      var c, k := ks[..|ks| - 1], ks[|ks| - 1];
      assert ks == c + [k];
      CollectSkipsEmpty(ix, c, f);
      CollectStep(ix, c, k);
      KeepStep(c, k, f);
      if f(k) { CollectStep(ix, Keep(c, f), k); }
    }
  }

  lemma KeepStep(ks: seq<string>, k: string, f: string -> bool)
    ensures Keep(ks + [k], f) == if f(k) then Keep(ks, f) + [k] else Keep(ks, f)
  {
    assert (ks + [k])[..|ks|] == ks;
  }

  /** Two ascending scans that visit the same non-empty entries collect the same list. */
  lemma SameNonEmptySameList(ix: Table, a: seq<string>, b: seq<string>)
    requires StrictlyAscending(a) && StrictlyAscending(b)
    requires (forall k :: k in a ==> k in ix) && (forall k :: k in b ==> k in ix)
    requires forall k :: k in ix && Listed(ix, k) != [] ==> (k in a <==> k in b)
    ensures Collect(ix, a) == Collect(ix, b)
  {
    hide Keep, Collect, Listed;
    var f := k => Listed(ix, k) != [];
    CollectSkipsEmpty(ix, a, f);
    CollectSkipsEmpty(ix, b, f);
    KeepAscending(a, f);
    KeepAscending(b, f);
    KeepMembers(a, f);
    KeepMembers(b, f);
    AscendingUnique(Keep(a, f), Keep(b, f));
  }

  /** A non-empty entry is visited by the interval scan exactly when the loop accepts its number. */
  lemma VisitedAlike(stod: Stod, w: World, lbl: string, key: string, op: string, t: u64, k: string)
    requires Inv(stod, w) && NulFree(lbl) && NulFree(key) && lbl != "" && RangeOp(op)
    requires NoneExceptional(stod, w, lbl, key, op, t) && k in w.db.propIndex && Listed(w.db.propIndex, k) != []
    ensures var prefix := IndexPrefix(lbl, key);
      InInterval(k, prefix, op, t) <==> StartsWith(k, prefix) && NumericMatch(k, prefix, op, Some(t))
  {
    hide Inv, NulFree, LastText, HasNumber, IndexPrefix, CompareDoubles, CompareEncoded, Encode, KeysBuilt, WellPacked,
      Unpack, Decode, InInterval, Exceptional, Listed;
    var ix, prefix := w.db.propIndex, IndexPrefix(lbl, key);
    IndexIsBuilt(stod, w);
    if InInterval(k, prefix, op, t) { IntervalSharesPrefix(prefix, k, op, t); }
    if StartsWith(k, prefix) {
      var s := ShapeOf(stod, ix, lbl, key, k);
      if s.Text? {
        StringOutsideInterval(prefix, s.v, op, t);
        assert k[|prefix|] == STRING;
      } else {
        var id := Listed(ix, k)[0];
        assert id in Listed(ix, k);
        NumberListed(stod, w, lbl, key, s.x, id);
        NumberInInterval(prefix, s.x, op, t);
        NumberMatches(lbl, key, s.x, op, t);
        ComparisonsAgreeIff(op, s.x, t);
      }
    }
  }

  lemma IntervalIsNumbers(stod: Stod, w: World, lbl: string, key: string, op: string, t: u64)
    requires Inv(stod, w) && NulFree(lbl) && NulFree(key) && lbl != "" && RangeOp(op)
    requires NoneExceptional(stod, w, lbl, key, op, t)
    ensures var prefix := IndexPrefix(lbl, key);
      Collect(w.db.propIndex, IntervalKeys(w.db.propIndex, prefix, op, t))
      == NumericResult(w.db.propIndex, prefix, op, Some(t))
  {
    hide Inv, IntervalKeys, InInterval, NumericMatch, NulFree, NoneExceptional, IndexPrefix, Keep, Ascending, Collect, Listed;
    var ix, prefix := w.db.propIndex, IndexPrefix(lbl, key);
    var f := k => NumericMatch(k, prefix, op, Some(t));
    var a, b := IntervalKeys(ix, prefix, op, t), Keep(Prefixed(ix, prefix), f);
    IntervalKeysAre(ix, prefix, op, t);
    KeepAscending(Prefixed(ix, prefix), f);
    KeepMembers(Prefixed(ix, prefix), f);
    forall k | k in ix && Listed(ix, k) != [] ensures k in a <==> k in b {
      VisitedAlike(stod, w, lbl, key, op, t, k);
    }
    SameNonEmptySameList(ix, a, b);
  }

  /** One exceptional number makes the two lists differ. */
  lemma ExceptionSeparates(stod: Stod, w: World, lbl: string, key: string, op: string, t: u64, id: u64, x: u64)
    requires Inv(stod, w) && NulFree(lbl) && NulFree(key) && lbl != "" && RangeOp(op)
    requires id in w.labels && w.labels[id] == lbl && HasNumber(stod, LastText(w, id), key, x)
    ensures var prefix := IndexPrefix(lbl, key);
      && (id in Collect(w.db.propIndex, IntervalKeys(w.db.propIndex, prefix, op, t)) <==> CompareEncoded(op, x, t))
      && (id in NumericResult(w.db.propIndex, prefix, op, Some(t)) <==> CompareDoubles(op, x, t))
  {
    hide Inv, NulFree, LastText, HasNumber, IndexPrefix, CompareDoubles, CompareEncoded, Collect, IntervalKeys, NumericResult,
      ValidText;
    IntervalMembers(stod, w, lbl, key, op, t, id);
    NumericMembers(stod, w, lbl, key, op, t, id);
    LastIsValid(stod, w, id);
    forall y | HasNumber(stod, LastText(w, id), key, y) ensures y == x { OneNumber(stod, LastText(w, id), key, x, y); }
  }

  /** The interval scan refines the loop over every entry: it returns exactly what the loop collects
      from numeric entries, in the same order, if and only if no stored number of the property is an
      exceptional one. The loop also compares string entries as text; they come last. */
  lemma RangeScanRefinesLoopIff(stod: Stod, w: World, lbl: string, key: string, op: string, text: string)
    requires Inv(stod, w) && NulFree(lbl) && NulFree(key) && lbl != "" && RangeOp(op) && stod(text).Some?
    ensures var prefix, ix := IndexPrefix(lbl, key), w.db.propIndex;
            var numbers := NumericResult(ix, prefix, op, stod(text));
            var strings := StringResult(ix, prefix, op, text);
      && (NodesByRange(stod, w.db, lbl, key, op, text) == Some(numbers)
          <==> NoneExceptional(stod, w, lbl, key, op, stod(text).value))
      && LoopResult(ix, prefix, op, stod(text), text) == numbers + strings
  {
    hide Inv, NulFree, LastText, HasNumber, IndexPrefix, CompareDoubles, CompareEncoded, Collect, IntervalKeys, NumericResult,
      StringResult, LoopResult, Exceptional;
    var t := stod(text).value;
    assert stod(text) == Some(t);
    LoopIsNumbersThenStrings(w.db.propIndex, IndexPrefix(lbl, key), op, t, text);
    if NoneExceptional(stod, w, lbl, key, op, t) {
      IntervalIsNumbers(stod, w, lbl, key, op, t);
    } else {
      var id, x :| id in w.labels && w.labels[id] == lbl && HasNumber(stod, LastText(w, id), key, x) && Exceptional(op, x, t);
      ExceptionSeparates(stod, w, lbl, key, op, t, id, x);
      ComparisonsAgreeIff(op, x, t);
    }
  }
}
