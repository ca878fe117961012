/** WHERE (executor.cpp): the property index path, the range index path and the full scan, and the
    fused MATCH+WHERE. */
module Where {
  import opened Bytes
  import opened SortableDouble
  import opened Ast
  import opened Json
  import opened JsonLaws
  import opened Store
  import opened PropertyIndex
  import opened Runs
  import opened RunResults
  import opened LabelScans
  import opened Ranges
  import opened Matching

  /** The legacy fields of a where clause, which are all the executor reads. */
  datatype Filter = Filter(variable: string, property: string, op: string, value: Option<Expr<Lit>>)

  function CompareText(f: Filter): string {
    if f.value.Some? && f.value.value.Literal? then f.value.value.lit.text else ""
  }

  /** The number the full scan compares with: only number literals that `stod` accepts. */
  function CompareNumber(stod: Stod, f: Filter): Option<u64> {
    if f.value.Some? && f.value.value.Literal? && !f.value.value.lit.isString
    then stod(f.value.value.lit.text) else None
  }

  /** The test of the full scan on one property text. */
  predicate TextPasses(stod: Stod, f: Filter, text: string) {
    var value := GetValue(text, f.property);
    value != "" &&
    if f.op == "=" then value == CompareText(f)
    else if CompareNumber(stod, f).Some? then
      stod(value).Some? && CompareDoubles(f.op, stod(value).value, CompareNumber(stod, f).value)
    else CompareStrings(f.op, value, CompareText(f))
  }

  predicate NodePasses(stod: Stod, d: Db, f: Filter, id: u64) {
    ToKey(id) in d.nodes && TextPasses(stod, f, NodeText(d, id))
  }

  /** The full scan, in one pass. */
  function FullScan(stod: Stod, d: Db, f: Filter, ids: seq<u64>): seq<u64> {
    if ids == [] then [] else
    FullScan(stod, d, f, ids[..|ids| - 1])
    + if NodePasses(stod, d, f, ids[|ids| - 1]) then [ids[|ids| - 1]] else []
  }

  /** What the index has for the filter; None where the executor does not ask it. */
  function IndexAnswer(stod: Stod, d: Db, f: Filter, lbl: string): Option<seq<u64>> {
    if lbl == "" then None
    else if f.op == "=" then Some(NodesByProperty(stod, d, lbl, f.property, CompareText(f)))
    else if f.op == "<>" then None
    else NodesByRange(stod, d, lbl, f.property, f.op, CompareText(f))
  }

  function LabelOf(env: Env, x: string): string {
    if x in env.labels then env.labels[x] else ""
  }

  function FilteredIds(stod: Stod, d: Db, f: Filter, lbl: string, ids: seq<u64>): seq<u64> {
    match IndexAnswer(stod, d, f, lbl)
    case Some(found) => Intersect(Sort(ids), Sort(found))
    case None => FullScan(stod, d, f, ids)
  }

  function ExecWhere(stod: Stod, d: Db, env: Env, f: Filter): Env {
    if f.variable == "" || f.property == "" || f.variable !in env.context then env
    else env.(context := env.context[f.variable :=
           FilteredIds(stod, d, f, LabelOf(env, f.variable), env.context[f.variable])])
  }

  // ---- index and full scan ----

  lemma {:induction false} FullScanMembers(stod: Stod, d: Db, f: Filter, ids: seq<u64>)
    ensures forall x :: x in FullScan(stod, d, f, ids) <==> x in ids && NodePasses(stod, d, f, x)
  {
    hide NodePasses;
    if ids != [] {
      FullScanMembers(stod, d, f, ids[..|ids| - 1]);
      assert forall x :: x in ids <==> x in ids[..|ids| - 1] || x == ids[|ids| - 1];
    }
  }

  lemma IntersectedMembers(a: seq<u64>, b: seq<u64>)
    ensures forall x :: x in Intersect(Sort(a), Sort(b)) <==> x in a && x in b
  {
    SortSorts(a);
    SortSorts(b);
    IntersectMembers(Sort(a), Sort(b));
  }

  /** The node's text was printed from these entries, and the helpers find the key in it. */
  ghost predicate PrintedFrom(w: World, id: u64, es: seq<Entry>, key: string) {
    NodeText(w.db, id) == Print(es) && WellFormed(es) && DistinctKeys(es) && KeyFound(es, key)
  }

  /** The candidates of the filter: what MATCH binds to a variable with this label. Deleted nodes are
      among them; the others have printed texts. */
  ghost predicate Candidate(w: World, id: u64, lbl: string, key: string) {
    id in w.labels && w.labels[id] == lbl && (Live(w, id) ==> exists es :: PrintedFrom(w, id, es, key))
  }

  /** The value text stored under the key, "" if there is none. */
  function StoredValue(es: seq<Entry>, key: string): string {
    match Lookup(es, key) case None => "" case Some(v) => Erased(v)
  }

  lemma {:induction false} LookupIsField(es: seq<Entry>, key: string)
    requires DistinctKeys(es)
    ensures Lookup(es, key).Some? ==> Field(key, Erased(Lookup(es, key).value)) in Erase(es)
    ensures forall f :: f in Erase(es) && f.key == key ==>
      Lookup(es, key).Some? && f.value == Erased(Lookup(es, key).value)
  {
    if es != [] {
      LookupIsField(es[1..], key);
      assert Erase(es) == [Erase(es)[0]] + Erase(es[1..]);
      assert forall f :: f in Erase(es) <==> f == Erase(es)[0] || f in Erase(es[1..]);
      if es[0].key == key {
        forall f | f in Erase(es[1..]) ensures f.key != key {
          var i :| 0 <= i < |es| - 1 && Erase(es[1..])[i] == f;
          assert es[i + 1].key == f.key;
        }
      }
    }
  }

  /** What both paths look at: the scan reads the stored value, the index sees its canonical form. */
  lemma CandidateValue(stod: Stod, w: World, id: u64, es: seq<Entry>, key: string, value: string)
    requires PrintedFrom(w, id, es, key) && IsIdentifier(key)
    ensures GetValue(NodeText(w.db, id), key) == StoredValue(es, key)
    ensures HasCanon(stod, NodeText(w.db, id), key, value)
       <==> Lookup(es, key).Some? && Canon(stod, StoredValue(es, key)) == Canon(stod, value)
  {
    hide Canon, GetValue, Print, Parse, KeyFound;
    HelpersCommuteWithPrinterIff(es, key);
    ParsePrint(es);
    LookupIsField(es, key);
  }

  /** The same for numbers. */
  lemma CandidateNumber(stod: Stod, w: World, id: u64, es: seq<Entry>, key: string, x: u64)
    requires PrintedFrom(w, id, es, key) && IsIdentifier(key)
    ensures HasNumber(stod, NodeText(w.db, id), key, x)
       <==> var value := GetValue(NodeText(w.db, id), key); value != "" && stod(value) == Some(x)
  {
    hide GetValue, Print, Parse, KeyFound;
    HelpersCommuteWithPrinterIff(es, key);
    ParsePrint(es);
    LookupIsField(es, key);
  }

  /** Equality: the canonical form of a value decides for the index, the text itself for the scan. */
  ghost predicate CanonInjective(stod: Stod, w: World, ids: seq<u64>, key: string, text: string) {
    forall id :: id in ids ==>
      var value := GetValue(NodeText(w.db, id), key);
      value != "" && Canon(stod, value) == Canon(stod, text) ==> value == text
  }

  /** No node that was deleted had the value, and no node has it if it is the empty string. */
  ghost predicate NoneLost(stod: Stod, w: World, ids: seq<u64>, key: string, text: string) {
    forall id :: id in ids && (text == "" || !Live(w, id)) ==> !HasCanon(stod, LastText(w, id), key, text)
  }

  lemma EqualityAt(stod: Stod, w: World, f: Filter, lbl: string, id: u64)
    requires Inv(stod, w) && NulFree(lbl) && lbl != "" && IsIdentifier(f.property)
    requires f.op == "=" && Candidate(w, id, lbl, f.property)
    ensures var (value, text) := (GetValue(NodeText(w.db, id), f.property), CompareText(f));
            var found := id in NodesByProperty(stod, w.db, lbl, f.property, text);
      && (found <==> HasCanon(stod, LastText(w, id), f.property, text))
      && (Live(w, id) && text != "" ==> (found <==> value != "" && Canon(stod, value) == Canon(stod, text)))
      && (!Live(w, id) ==> value == "")
      && (NodePasses(stod, w.db, f, id) <==> value != "" && value == text)
  {
    hide Inv, Canon, GetValue, HasCanon, NodesByProperty, PrintedFrom, FromKey, LastText, CompareText, IsIdentifier, NulFree;
    IdentifierNulFree(f.property);
    LookupAnswers(stod, w, lbl, f.property, CompareText(f));
    NoValueInNothing(f.property);
    if Live(w, id) {
      LastIsValid(stod, w, id);
      var es :| PrintedFrom(w, id, es, f.property);
      CandidateValue(stod, w, id, es, f.property, CompareText(f));
      if CompareText(f) != "" { EmptyCanon(stod, CompareText(f)); }
      if Lookup(es, f.property).None? { assert StoredValue(es, f.property) == ""; }
      LiveHasKey(w, id);
    }
  }

  lemma NoValueInNothing(key: string)
    ensures GetValue("", key) == ""
  {
  }

  lemma LiveHasKey(w: World, id: u64)
    requires Live(w, id)
    ensures ToKey(id) in w.db.nodes
  {
  }

  lemma EmptyCanon(stod: Stod, text: string)
    requires text != ""
    ensures Canon(stod, "") != Canon(stod, text)
  {
  }

  lemma IdentifierNulFree(s: string)
    requires IsIdentifier(s)
    ensures NulFree(s)
  {
    forall i | 0 <= i < |s| ensures s[i] != '\0' { assert IsIdentifierChar(s[i]); }
  }

  /** WHERE x.key = literal: the index path keeps every id the full scan keeps. It keeps no other exactly
      when no stored value merely looks like the literal to the index (30 and 30.0), no deleted node had
      it, and the literal is not an empty string that some node has. */
  lemma EqualityPathsAgreeIff(stod: Stod, w: World, f: Filter, lbl: string, ids: seq<u64>)
    requires Inv(stod, w) && NulFree(lbl) && lbl != "" && IsIdentifier(f.property) && f.op == "="
    requires forall id :: id in ids ==> Candidate(w, id, lbl, f.property)
    ensures forall x :: x in FullScan(stod, w.db, f, ids) ==> x in FilteredIds(stod, w.db, f, lbl, ids)
    ensures (forall x :: x in FilteredIds(stod, w.db, f, lbl, ids) ==> x in FullScan(stod, w.db, f, ids))
       <==> CanonInjective(stod, w, ids, f.property, CompareText(f)) && NoneLost(stod, w, ids, f.property, CompareText(f))
  {
    hide Inv, Canon, GetValue, NodesByProperty, NodePasses, FullScan, Intersect, Sort, Candidate, CompareText, HasCanon,
      LastText, Live, CanonInjective, NoneLost, NodeText, NulFree, IsIdentifier;
    var found := NodesByProperty(stod, w.db, lbl, f.property, CompareText(f));
    FullScanMembers(stod, w.db, f, ids);
    IntersectedMembers(ids, found);
    assert FilteredIds(stod, w.db, f, lbl, ids) == Intersect(Sort(ids), Sort(found));
    forall id | id in ids
      ensures NodePasses(stod, w.db, f, id) ==> id in found
      ensures Harmless(stod, w, f, id) <==> (id in found ==> NodePasses(stod, w.db, f, id))
    {
      EqualityDiffers(stod, w, f, lbl, id);
    }
    HarmlessEach(stod, w, f, ids);
  }

  /** What the two conditions say of one candidate. */
  ghost predicate Harmless(stod: Stod, w: World, f: Filter, id: u64) {
    CanonInjective(stod, w, [id], f.property, CompareText(f)) && NoneLost(stod, w, [id], f.property, CompareText(f))
  }

  lemma HarmlessEach(stod: Stod, w: World, f: Filter, ids: seq<u64>)
    ensures CanonInjective(stod, w, ids, f.property, CompareText(f)) && NoneLost(stod, w, ids, f.property, CompareText(f))
       <==> forall id :: id in ids ==> Harmless(stod, w, f, id)
  {
    hide Canon, GetValue, CompareText, HasCanon, LastText, Live, NodeText;
    forall id | id in ids && !Harmless(stod, w, f, id)
      ensures !CanonInjective(stod, w, ids, f.property, CompareText(f)) || !NoneLost(stod, w, ids, f.property, CompareText(f))
    {
      assert forall x :: x in [id] ==> x in ids;
    }
    forall id | id in ids && Harmless(stod, w, f, id) ensures HarmlessAt(stod, w, f, id) { assert id in [id]; }
  }

  ghost predicate HarmlessAt(stod: Stod, w: World, f: Filter, id: u64) {
    var value, text := GetValue(NodeText(w.db, id), f.property), CompareText(f);
    && (value != "" && Canon(stod, value) == Canon(stod, text) ==> value == text)
    && (text == "" || !Live(w, id) ==> !HasCanon(stod, LastText(w, id), f.property, text))
  }

  lemma EqualityDiffers(stod: Stod, w: World, f: Filter, lbl: string, id: u64)
    requires Inv(stod, w) && NulFree(lbl) && lbl != "" && IsIdentifier(f.property)
    requires f.op == "=" && Candidate(w, id, lbl, f.property)
    ensures var found := NodesByProperty(stod, w.db, lbl, f.property, CompareText(f));
      && (NodePasses(stod, w.db, f, id) ==> id in found)
      && (Harmless(stod, w, f, id) <==> (id in found ==> NodePasses(stod, w.db, f, id)))
  {
    hide Inv, Canon, GetValue, NodesByProperty, NodePasses, Candidate, CompareText, HasCanon, LastText, Live, NodeText,
      NulFree, IsIdentifier;
    EqualityAt(stod, w, f, lbl, id);
    assert id in [id];
    assert Harmless(stod, w, f, id) <==> HarmlessAt(stod, w, f, id);
    if CompareText(f) == "" { OnlyEmptyIsEmpty(stod, GetValue(NodeText(w.db, id), f.property)); }
  }

  lemma OnlyEmptyIsEmpty(stod: Stod, value: string)
    ensures Canon(stod, value) == Canon(stod, "") ==> value == ""
  {
    if value != "" { EmptyCanon(stod, value); }
  }

  // ---- ranges ----

  /** WHERE x.key with >, >=, < or <= and a number, for one candidate: the index goes by the last number
      and its encoding, the scan by the number of a live node. */
  lemma RangeAt(stod: Stod, w: World, f: Filter, lbl: string, id: u64)
    requires Inv(stod, w) && NulFree(lbl) && lbl != "" && IsIdentifier(f.property) && NulFree(f.property)
    requires RangeOp(f.op) && CompareNumber(stod, f).Some? && Candidate(w, id, lbl, f.property)
    ensures var (t, text) := (CompareNumber(stod, f).value, LastText(w, id));
      && (id in Collect(w.db.propIndex, IntervalKeys(w.db.propIndex, IndexPrefix(lbl, f.property), f.op, t))
          <==> exists x :: HasNumber(stod, text, f.property, x) && CompareEncoded(f.op, x, t))
      && (NodePasses(stod, w.db, f, id)
          <==> Live(w, id) && exists x :: HasNumber(stod, text, f.property, x) && CompareDoubles(f.op, x, t))
  {
    hide Inv, GetValue, HasNumber, PrintedFrom, FromKey, LastText, IsIdentifier, NulFree, CompareEncoded, CompareDoubles,
      CompareNumber, Collect, IntervalKeys, IndexPrefix;
    var t := CompareNumber(stod, f).value;
    IntervalMembers(stod, w, lbl, f.property, f.op, t, id);
    NoValueInNothing(f.property);
    if Live(w, id) {
      LiveHasKey(w, id);
      LastIsValid(stod, w, id);
      var es :| PrintedFrom(w, id, es, f.property);
      forall x: u64 ensures HasNumber(stod, NodeText(w.db, id), f.property, x)
                  <==> var value := GetValue(NodeText(w.db, id), f.property); value != "" && stod(value) == Some(x)
      {
        CandidateNumber(stod, w, id, es, f.property, x);
      }
    }
  }

  /** No live candidate has an exceptional number, and the last number of no deleted candidate lies in the
      interval. */
  ghost predicate RangeHarmless(stod: Stod, w: World, ids: seq<u64>, key: string, op: string, t: u64) {
    forall id, x :: id in ids && HasNumber(stod, LastText(w, id), key, x) ==>
      if Live(w, id) then !Exceptional(op, x, t) else !CompareEncoded(op, x, t)
  }

  lemma RangeDiffers(stod: Stod, w: World, f: Filter, lbl: string, id: u64)
    requires Inv(stod, w) && NulFree(lbl) && lbl != "" && IsIdentifier(f.property) && NulFree(f.property)
    requires RangeOp(f.op) && CompareNumber(stod, f).Some? && Candidate(w, id, lbl, f.property)
    ensures var t := CompareNumber(stod, f).value;
            var found := Collect(w.db.propIndex, IntervalKeys(w.db.propIndex, IndexPrefix(lbl, f.property), f.op, t));
      (id in found <==> NodePasses(stod, w.db, f, id)) <==> RangeHarmless(stod, w, [id], f.property, f.op, t)
  {
    hide Inv, HasNumber, LastText, IsIdentifier, NulFree, CompareEncoded, CompareDoubles, Exceptional, NodePasses, ValidText,
      CompareNumber, Collect, IntervalKeys, IndexPrefix, Live;
    var t := CompareNumber(stod, f).value;
    RangeAt(stod, w, f, lbl, id);
    assert id in w.labels by { hide PrintedFrom; }
    LastIsValid(stod, w, id);
    assert id in [id];
    if x :| HasNumber(stod, LastText(w, id), f.property, x) {
      forall y | HasNumber(stod, LastText(w, id), f.property, y) ensures y == x {
        OneNumber(stod, LastText(w, id), f.property, x, y);
      }
      ComparisonsAgreeIff(f.op, x, t);
    }
  }

  /** The range index path and the full scan keep the same ids if and only if no live candidate has an
      exceptional number and the last number of no deleted candidate lies in the interval. */
  lemma RangePathsAgreeIff(stod: Stod, w: World, f: Filter, lbl: string, ids: seq<u64>)
    requires Inv(stod, w) && NulFree(lbl) && lbl != "" && IsIdentifier(f.property)
    requires RangeOp(f.op) && CompareNumber(stod, f).Some?
    requires forall id :: id in ids ==> Candidate(w, id, lbl, f.property)
    ensures (forall x :: x in FilteredIds(stod, w.db, f, lbl, ids) <==> x in FullScan(stod, w.db, f, ids))
       <==> RangeHarmless(stod, w, ids, f.property, f.op, CompareNumber(stod, f).value)
  {
    hide Inv, FullScan, Intersect, Sort, NodePasses, Candidate, IsIdentifier, NulFree, RangeHarmless, Collect, IntervalKeys,
      IndexPrefix;
    var t := CompareNumber(stod, f).value;
    var found := Collect(w.db.propIndex, IntervalKeys(w.db.propIndex, IndexPrefix(lbl, f.property), f.op, t));
    assert FilteredIds(stod, w.db, f, lbl, ids) == Intersect(Sort(ids), Sort(found));
    hide FilteredIds;
    IdentifierNulFree(f.property);
    FullScanMembers(stod, w.db, f, ids);
    IntersectedMembers(ids, found);
    forall id | id in ids
      ensures (id in found <==> NodePasses(stod, w.db, f, id)) <==> RangeHarmless(stod, w, [id], f.property, f.op, t)
    {
      RangeDiffers(stod, w, f, lbl, id);
    }
    RangeHarmlessEach(stod, w, ids, f.property, f.op, t);
  }

  lemma RangeHarmlessEach(stod: Stod, w: World, ids: seq<u64>, key: string, op: string, t: u64)
    ensures RangeHarmless(stod, w, ids, key, op, t) <==> forall id :: id in ids ==> RangeHarmless(stod, w, [id], key, op, t)
  {
    hide HasNumber, LastText, Live, Exceptional, CompareEncoded;
    forall id | id in ids && !RangeHarmless(stod, w, [id], key, op, t) ensures !RangeHarmless(stod, w, ids, key, op, t) {
      assert forall x :: x in [id] ==> x in ids;
    }
    forall id, x | id in ids && HasNumber(stod, LastText(w, id), key, x) && RangeHarmless(stod, w, [id], key, op, t)
      ensures if Live(w, id) then !Exceptional(op, x, t) else !CompareEncoded(op, x, t)
    {
      assert id in [id];
    }
  }

  // ---- ranges of strings ----

  /** No candidate's value that compares with the threshold, now or when it was deleted, is empty, reads as a
      number although the node is live, or does not although it was deleted. */
  ghost predicate StringRangeHarmless(stod: Stod, w: World, ids: seq<u64>, key: string, op: string, text: string) {
    forall id, v :: id in ids && Field(key, v) in Parse(LastText(w, id)) && CompareStrings(op, v, text) ==>
      v != "" && (Live(w, id) <==> stod(v).None?)
  }

  lemma OneValue(text: string, key: string, v: string, u: string)
    requires ValidText(text) && Field(key, v) in Parse(text) && Field(key, u) in Parse(text)
    ensures v == u
  {
    hide NulFree, Parse;
    var i :| 0 <= i < |Parse(text)| && Parse(text)[i] == Field(key, v);
    var j :| 0 <= j < |Parse(text)| && Parse(text)[j] == Field(key, u);
  }

  /** The scan reads the value the text has under the key. */
  lemma CandidateField(w: World, id: u64, es: seq<Entry>, key: string, v: string)
    requires PrintedFrom(w, id, es, key) && IsIdentifier(key)
    ensures v != "" ==> (Field(key, v) in Parse(NodeText(w.db, id)) <==> GetValue(NodeText(w.db, id), key) == v)
  {
    hide GetValue, Print, Parse, KeyFound;
    HelpersCommuteWithPrinterIff(es, key);
    ParsePrint(es);
    LookupIsField(es, key);
  }

  /** WHERE x.key with a threshold that is no number, for one candidate. */
  lemma StringRangeAt(stod: Stod, w: World, f: Filter, lbl: string, id: u64)
    requires Inv(stod, w) && NulFree(lbl) && lbl != "" && IsIdentifier(f.property) && NulFree(f.property)
    requires RangeOp(f.op) && stod(CompareText(f)).None? && Candidate(w, id, lbl, f.property)
    ensures var (text, last) := (CompareText(f), LastText(w, id));
      && (id in LoopResult(w.db.propIndex, IndexPrefix(lbl, f.property), f.op, None, text)
          <==> exists v :: HasString(stod, last, f.property, v) && CompareStrings(f.op, v, text))
      && (NodePasses(stod, w.db, f, id)
          <==> Live(w, id) && exists v :: v != "" && Field(f.property, v) in Parse(last) && CompareStrings(f.op, v, text))
  {
    hide Inv, GetValue, HasString, PrintedFrom, FromKey, LastText, IsIdentifier, NulFree, CompareStrings, CompareDoubles,
      LoopResult, IndexPrefix, Parse, ValidText, CompareText;
    StringMembers(stod, w, lbl, f.property, f.op, CompareText(f), id);
    NoNumberToCompare(stod, f);
    NoValueInNothing(f.property);
    if Live(w, id) {
      LiveHasKey(w, id);
      LastIsValid(stod, w, id);
      var es :| PrintedFrom(w, id, es, f.property);
      forall v ensures v != "" ==>
        (Field(f.property, v) in Parse(NodeText(w.db, id)) <==> GetValue(NodeText(w.db, id), f.property) == v)
      {
        CandidateField(w, id, es, f.property, v);
      }
    }
  }

  lemma NoNumberToCompare(stod: Stod, f: Filter)
    requires stod(CompareText(f)).None?
    ensures CompareNumber(stod, f).None?
  {
  }

  lemma StringRangeDiffers(stod: Stod, w: World, f: Filter, lbl: string, id: u64)
    requires Inv(stod, w) && NulFree(lbl) && lbl != "" && IsIdentifier(f.property) && NulFree(f.property)
    requires RangeOp(f.op) && stod(CompareText(f)).None? && Candidate(w, id, lbl, f.property)
    ensures var found := LoopResult(w.db.propIndex, IndexPrefix(lbl, f.property), f.op, None, CompareText(f));
      (id in found <==> NodePasses(stod, w.db, f, id))
      <==> StringRangeHarmless(stod, w, [id], f.property, f.op, CompareText(f))
  {
    hide Inv, LastText, IsIdentifier, NulFree, CompareStrings, NodePasses, ValidText, LoopResult, IndexPrefix, Live, Parse,
      CompareText;
    var last := LastText(w, id);
    StringRangeAt(stod, w, f, lbl, id);
    assert id in w.labels by { hide PrintedFrom; }
    LastIsValid(stod, w, id);
    assert id in [id];
    if v :| Field(f.property, v) in Parse(last) {
      forall u | Field(f.property, u) in Parse(last) ensures u == v { OneValue(last, f.property, v, u); }
    }
  }

  /** WHERE x.key with >, >=, < or <= and a threshold that does not read as a number: index and full scan
      keep the same ids if and only if every candidate's value that compares is not empty and is a string
      if the node is live, and read as a number if it was deleted. The scan compares numbers by their text
      as well, and the index does not look at them. */
  lemma StringRangePathsAgreeIff(stod: Stod, w: World, f: Filter, lbl: string, ids: seq<u64>)
    requires Inv(stod, w) && NulFree(lbl) && lbl != "" && IsIdentifier(f.property)
    requires RangeOp(f.op) && stod(CompareText(f)).None?
    requires forall id :: id in ids ==> Candidate(w, id, lbl, f.property)
    ensures (forall x :: x in FilteredIds(stod, w.db, f, lbl, ids) <==> x in FullScan(stod, w.db, f, ids))
       <==> StringRangeHarmless(stod, w, ids, f.property, f.op, CompareText(f))
  {
    hide Inv, FullScan, Intersect, Sort, NodePasses, Candidate, IsIdentifier, NulFree, StringRangeHarmless, LoopResult,
      IndexPrefix, CompareText;
    var found := LoopResult(w.db.propIndex, IndexPrefix(lbl, f.property), f.op, None, CompareText(f));
    assert FilteredIds(stod, w.db, f, lbl, ids) == Intersect(Sort(ids), Sort(found));
    hide FilteredIds;
    IdentifierNulFree(f.property);
    FullScanMembers(stod, w.db, f, ids);
    IntersectedMembers(ids, found);
    forall id | id in ids
      ensures (id in found <==> NodePasses(stod, w.db, f, id))
         <==> StringRangeHarmless(stod, w, [id], f.property, f.op, CompareText(f))
    {
      StringRangeDiffers(stod, w, f, lbl, id);
    }
    StringRangeHarmlessEach(stod, w, ids, f.property, f.op, CompareText(f));
  }

  lemma StringRangeHarmlessEach(stod: Stod, w: World, ids: seq<u64>, key: string, op: string, text: string)
    ensures StringRangeHarmless(stod, w, ids, key, op, text)
       <==> forall id :: id in ids ==> StringRangeHarmless(stod, w, [id], key, op, text)
  {
    hide LastText, Live, CompareStrings, Parse;
    forall id | id in ids && !StringRangeHarmless(stod, w, [id], key, op, text)
      ensures !StringRangeHarmless(stod, w, ids, key, op, text)
    {
      assert forall x :: x in [id] ==> x in ids;
    }
    forall id, v | id in ids && Field(key, v) in Parse(LastText(w, id)) && CompareStrings(op, v, text)
                   && StringRangeHarmless(stod, w, [id], key, op, text)
      ensures v != "" && (Live(w, id) <==> stod(v).None?)
    {
      assert id in [id];
    }
  }

  // ---- fused MATCH + WHERE ----

  /** `try_indexed_match_where`; None where it declines. */
  function TryFused(stod: Stod, d: Db, env: Env, paths: seq<Path<Lit>>, f: Filter): Option<Env> {
    if |paths| != 1 || |paths[0]| != 1 then None else
    var node := paths[0][0].node;
    if node.lbl == "" || node.variable == "" then None
    else if f.variable != node.variable || f.op != "=" || f.property == "" then None
    else if f.value.None? || !f.value.value.Literal? then None
    else Some(BindNode(env, node, NodesByProperty(stod, d, node.lbl, f.property, CompareText(f))))
  }

  /** The two clauses one after the other. */
  function MatchThenWhere(stod: Stod, d: Db, env: Env, paths: seq<Path<Lit>>, f: Filter): Env {
    ExecWhere(stod, d, MatchPaths(stod, d, env, paths), f)
  }

  lemma OneNodePath(stod: Stod, d: Db, env: Env, paths: seq<Path<Lit>>)
    requires |paths| == 1 && |paths[0]| == 1
    ensures MatchPaths(stod, d, env, paths) == MatchFirst(stod, d, env, paths[0][0].node)
  {
    hide MatchFirst, MatchPath, MatchHop;
    assert MatchPaths(stod, d, env, paths[..0]) == env;
    assert MatchPath(stod, d, env, paths[0]) == MatchHops(d, MatchFirst(stod, d, env, paths[0][0].node), paths[0], 0) by {
      OnePath(stod, d, env, paths[0]);
    }
  }

  lemma OnePath(stod: Stod, d: Db, env: Env, path: Path<Lit>)
    requires |path| == 1
    ensures MatchPath(stod, d, env, path) == MatchHops(d, MatchFirst(stod, d, env, path[0].node), path, 0)
    ensures MatchPath(stod, d, env, path) == MatchFirst(stod, d, env, path[0].node)
  {
  }

  /** Fusing preserves meaning: for one labelled node without inline properties and a new variable, the
      fused path binds the same ids as MATCH followed by WHERE. Deleted nodes make no difference. */
  lemma FusedAgrees(stod: Stod, w: World, env: Env, paths: seq<Path<Lit>>, f: Filter)
    requires Inv(stod, w) && TryFused(stod, w.db, env, paths, f).Some?
    requires var node := paths[0][0].node;
      && node.properties == [] && node.variable !in env.context
      && NulFree(node.lbl) && NulFree(f.property) && ScanExact(w, node.lbl)
    ensures var node := paths[0][0].node;
      forall x :: x in Bound(TryFused(stod, w.db, env, paths, f).value, node.variable)
             <==> x in Bound(MatchThenWhere(stod, w.db, env, paths, f), node.variable)
  {
    hide Inv, NodesByProperty, IteratedByLabel, NodesByLabel, Intersect, Sort, HasCanon, CompareText, MatchThenWhere, LastText,
      NulFree, Increasing;
    var node := paths[0][0].node;
    var found := NodesByProperty(stod, w.db, node.lbl, f.property, CompareText(f));
    LookupAnswers(stod, w, node.lbl, f.property, CompareText(f));
    IntersectedMembers(IteratedByLabel(w.db, node.lbl), found);
    SlowPath(stod, w.db, env, paths, f);
    assert forall x :: x in found ==> x in IteratedByLabel(w.db, node.lbl);
  }

  /** What MATCH and then WHERE bind: the scanned nodes that the equality finds, or nothing. */
  lemma SlowPath(stod: Stod, d: Db, env: Env, paths: seq<Path<Lit>>, f: Filter)
    requires TryFused(stod, d, env, paths, f).Some?
    requires paths[0][0].node.properties == [] && paths[0][0].node.variable !in env.context
    ensures var node := paths[0][0].node;
      Bound(MatchThenWhere(stod, d, env, paths, f), node.variable)
      == if IteratedByLabel(d, node.lbl) == [] then []
         else Intersect(Sort(IteratedByLabel(d, node.lbl)),
                        Sort(NodesByProperty(stod, d, node.lbl, f.property, CompareText(f))))
  {
    OneNodePath(stod, d, env, paths);
    hide NodesByProperty, IteratedByLabel, Intersect, Sort, CompareText, MatchPaths;
  }

  /** Every node of the label that has, or had when it was deleted, the value the filter asks for has all
      the inline properties as well. */
  ghost predicate FilterImpliesInline(stod: Stod, w: World, f: Filter, node: Node<Lit>)
    requires AllLiterals(node.properties)
  {
    forall x :: x in w.labels && w.labels[x] == node.lbl && HasCanon(stod, LastText(w, x), f.property, CompareText(f)) ==>
      HasAll(stod, LastText(w, x), node.properties)
  }

  /** The fused path never looks at inline properties; with literal ones it is right exactly when every
      node of the label with the filter's value has them too. */
  lemma FusedWithInlinePropertiesIff(stod: Stod, w: World, env: Env, paths: seq<Path<Lit>>, f: Filter)
    requires Inv(stod, w) && TryFused(stod, w.db, env, paths, f).Some? && NulFree(f.property)
    requires var node := paths[0][0].node;
      node.properties != [] && AllLiterals(node.properties) && NulFreeNames(node.lbl, node.properties)
    ensures var node := paths[0][0].node;
      (forall x :: x in Bound(TryFused(stod, w.db, env, paths, f).value, node.variable)
              <==> x in Bound(MatchThenWhere(stod, w.db, env, paths, f), node.variable))
      <==> FilterImpliesInline(stod, w, f, node)
  {
    hide Inv, NodesByProperty, IndexedIds, Intersect, Sort, CompareText, MatchThenWhere, HasCanon, HasAll, LastText, NulFree,
      AllLiterals;
    var node := paths[0][0].node;
    var found := NodesByProperty(stod, w.db, node.lbl, f.property, CompareText(f));
    var inline := IndexedIds(stod, w.db, node.lbl, node.properties);
    InlinePath(stod, w.db, env, paths, f);
    IntersectedMembers(inline, found);
    LookupAnswers(stod, w, node.lbl, f.property, CompareText(f));
    IndexedIdsAre(stod, w, node.lbl, node.properties);
  }

  /** What MATCH with literal inline properties and then WHERE bind. */
  lemma InlinePath(stod: Stod, d: Db, env: Env, paths: seq<Path<Lit>>, f: Filter)
    requires TryFused(stod, d, env, paths, f).Some?
    requires var node := paths[0][0].node; node.properties != [] && AllLiterals(node.properties)
    ensures var node := paths[0][0].node;
      Bound(MatchThenWhere(stod, d, env, paths, f), node.variable)
      == Intersect(Sort(IndexedIds(stod, d, node.lbl, node.properties)),
                   Sort(NodesByProperty(stod, d, node.lbl, f.property, CompareText(f))))
  {
    hide NodesByProperty, IndexedIds, Intersect, Sort, CompareText, MatchPaths;
    OneNodePath(stod, d, env, paths);
  }

  /** The fused form binds the variable with the label of the pattern. */
  lemma FusedCarries(stod: Stod, d: Db, env: Env, paths: seq<Path<Lit>>, f: Filter)
    requires TryFused(stod, d, env, paths, f).Some?
    ensures Carries(env, TryFused(stod, d, env, paths, f).value, paths[0][0].node)
  {
    hide NodesByProperty;
  }
}
