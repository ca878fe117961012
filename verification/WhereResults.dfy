/** What WHERE keeps, said of the values the nodes hold. */
module WhereResults {
  import opened Bytes
  import opened SortableDouble
  import opened Ast
  import opened Json
  import opened JsonLaws
  import opened Store
  import opened PropertyIndex
  import opened Runs
  import opened RunResults
  import opened Ranges
  import opened Matching
  import opened Where

  /** The ids the filter's variable is left with. */
  function KeptIds(stod: Stod, d: Db, env: Env, f: Filter): seq<u64> {
    Bound(ExecWhere(stod, d, env, f), f.variable)
  }

  lemma KeptIs(stod: Stod, d: Db, env: Env, f: Filter, id: u64)
    requires f.variable != "" && f.property != "" && f.variable in env.context
    ensures id in KeptIds(stod, d, env, f) <==>
      id in env.context[f.variable] &&
      match IndexAnswer(stod, d, f, LabelOf(env, f.variable))
      case Some(found) => id in found
      case None => NodePasses(stod, d, f, id)
  {
    hide IndexAnswer, NodePasses, FullScan, Intersect, Sort;
    FullScanMembers(stod, d, f, env.context[f.variable]);
    match IndexAnswer(stod, d, f, LabelOf(env, f.variable))
    case Some(found) => IntersectedMembers(env.context[f.variable], found);
    case None =>
  }

  /** A live node in the filter's list with the value v under the property. If the variable has a label, it
      is the node's own. */
  ghost predicate Holder(w: World, env: Env, f: Filter, id: u64, v: string) {
    && f.variable != "" && IsIdentifier(f.property) && f.variable in env.context && id in env.context[f.variable]
    && id in w.labels && NulFree(LabelOf(env, f.variable))
    && (LabelOf(env, f.variable) != "" ==> w.labels[id] == LabelOf(env, f.variable))
    && exists es :: PrintedFrom(w, id, es, f.property) && Lookup(es, f.property).Some? && v == Erased(Lookup(es, f.property).value)
  }

  lemma HolderValue(stod: Stod, w: World, env: Env, f: Filter, id: u64, v: string)
    requires Inv(stod, w) && Holder(w, env, f, id, v)
    ensures Live(w, id) && Kept(w, id) && NulFree(f.property) && f.property != ""
    ensures GetValue(NodeText(w.db, id), f.property) == v && Field(f.property, v) in Parse(LastText(w, id))
    ensures LabelOf(env, f.variable) != "" ==> Candidate(w, id, LabelOf(env, f.variable), f.property)
    ensures ToKey(id) in w.db.nodes
  {
    hide Inv, Parse, GetValue, KeyFound, ToKey, TextOf, IsIdentifier;
    var es :| PrintedFrom(w, id, es, f.property) && Lookup(es, f.property).Some? && v == Erased(Lookup(es, f.property).value);
    IdentifierNulFree(f.property);
    PrintIsText(es);
    assert f.property != "" by { EmptyIsNoIdentifier(f.property); }
    LastIsValid(stod, w, id);
    HelpersCommuteWithPrinterIff(es, f.property);
    ParsePrint(es);
    LookupIsField(es, f.property);
    LiveHasKey(w, id);
  }

  lemma EmptyIsNoIdentifier(s: string)
    requires IsIdentifier(s)
    ensures s != ""
  {
  }

  // ---- strings ----

  /** The value and the literal are strings that do not read as numbers. */
  predicate Strings(stod: Stod, f: Filter, v: string) {
    v != "" && stod(v).None? && stod(CompareText(f)).None?
  }

  function With(f: Filter, op: string): Filter {
    f.(op := op)
  }

  /** WHERE x.key op 'text', through the index or by the full scan: a live node is kept exactly when its
      string is on the side of the text, bytewise, that the operator asks for. */
  lemma StringsKept(stod: Stod, w: World, env: Env, f: Filter, id: u64, v: string)
    requires Inv(stod, w) && Holder(w, env, f, id, v) && Strings(stod, f, v)
    ensures var t := CompareText(f);
      && (id in KeptIds(stod, w.db, env, With(f, ">")) <==> Less(t, v))
      && (id in KeptIds(stod, w.db, env, With(f, "<")) <==> Less(v, t))
      && (id in KeptIds(stod, w.db, env, With(f, ">=")) <==> v == t || Less(t, v))
      && (id in KeptIds(stod, w.db, env, With(f, "<=")) <==> v == t || Less(v, t))
      && (id in KeptIds(stod, w.db, env, With(f, "=")) <==> v == t)
      && (id in KeptIds(stod, w.db, env, With(f, "<>")) <==> v != t)
  {
    hide Inv, KeptIds, Holder, Less, NodesByProperty, NodesByRange, TextOf, ToKey, LastText, IsIdentifier, NulFree, GetValue, Parse,
      Candidate, HasCanon, Canon;
    var t, lbl := CompareText(f), LabelOf(env, f.variable);
    HolderValue(stod, w, env, f, id, v);
    HolderIsListed(w, env, f, id, v);
    StringOperators(v, t);
    forall op ensures id in KeptIds(stod, w.db, env, With(f, op)) <==>
      match IndexAnswer(stod, w.db, With(f, op), lbl)
      case Some(found) => id in found
      case None => NodePasses(stod, w.db, With(f, op), id)
    {
      KeptIs(stod, w.db, env, With(f, op), id);
    }
    NoNumberToCompare(stod, f);
    if lbl != "" {
      StringThreshold(stod, w, lbl, f.property, t, id, v);
      EqualStringFound(stod, w, lbl, f.property, t, id, v);
    }
  }

  lemma HolderIsListed(w: World, env: Env, f: Filter, id: u64, v: string)
    requires Holder(w, env, f, id, v)
    ensures f.variable != "" && f.variable in env.context && id in env.context[f.variable] && id in w.labels
    ensures NulFree(LabelOf(env, f.variable)) && IsIdentifier(f.property)
    ensures LabelOf(env, f.variable) != "" ==> w.labels[id] == LabelOf(env, f.variable)
  {
  }

  lemma EqualStringFound(stod: Stod, w: World, lbl: string, key: string, t: string, id: u64, v: string)
    requires Inv(stod, w) && NulFree(lbl) && NulFree(key) && lbl != "" && stod(t).None?
    requires id in w.labels && w.labels[id] == lbl && Field(key, v) in Parse(LastText(w, id))
    ensures id in NodesByProperty(stod, w.db, lbl, key, t) <==> v == t
  {
    hide Inv, NulFree, LastText, NodesByProperty, Parse, ValidText;
    LookupAnswers(stod, w, lbl, key, t);
    LastIsValid(stod, w, id);
    StringCanon(stod, LastText(w, id), key, t);
    if HasString(stod, LastText(w, id), key, t) { OneValue(LastText(w, id), key, v, t); }
  }

  /** The operators hang together: what is larger than a kept string is kept by >, smaller by <; the text
      itself passes <=, >= and = only; <> keeps what < and > keep; no string is kept by two of <, =, >. */
  lemma StringOrderLaws(stod: Stod, w: World, env: Env, f: Filter, id: u64, v: string, id': u64, v': string)
    requires Inv(stod, w) && Holder(w, env, f, id, v) && Strings(stod, f, v)
    requires Holder(w, env, f, id', v') && Strings(stod, f, v')
    ensures id in KeptIds(stod, w.db, env, With(f, ">")) && Less(v, v') ==> id' in KeptIds(stod, w.db, env, With(f, ">"))
    ensures id in KeptIds(stod, w.db, env, With(f, "<")) && Less(v', v) ==> id' in KeptIds(stod, w.db, env, With(f, "<"))
    ensures v == CompareText(f) ==>
      && id in KeptIds(stod, w.db, env, With(f, ">=")) && id in KeptIds(stod, w.db, env, With(f, "<="))
      && id !in KeptIds(stod, w.db, env, With(f, ">")) && id !in KeptIds(stod, w.db, env, With(f, "<"))
    ensures id in KeptIds(stod, w.db, env, With(f, "<>"))
       <==> id in KeptIds(stod, w.db, env, With(f, "<")) || id in KeptIds(stod, w.db, env, With(f, ">"))
    ensures !(id in KeptIds(stod, w.db, env, With(f, "<")) && id in KeptIds(stod, w.db, env, With(f, ">")))
  {
    hide Inv, KeptIds, Holder, Less, Strings;
    var t := CompareText(f);
    StringsKept(stod, w, env, f, id, v);
    StringsKept(stod, w, env, f, id', v');
    LessTotal(v, t);
    LessIrreflexive(t);
    if Less(t, v) { LessAsymmetric(t, v); }
    if Less(t, v) && Less(v, v') { LessTransitive(t, v, v'); }
    if Less(v, t) && Less(v', v) { LessTransitive(v', v, t); }
  }

  // ---- numbers ----

  /** WHERE x.key op number: a live node with a number is kept exactly when the real values compare. <> asks
      the full scan; the other operators, for a variable with a label, ask the index, which goes wrong for
      the exceptional numbers. */
  lemma NumbersKept(stod: Stod, w: World, env: Env, f: Filter, id: u64, v: string, x: u64)
    requires Inv(stod, w) && Holder(w, env, f, id, v) && v != "" && stod(v) == Some(x) && CompareNumber(stod, f).Some?
    ensures var (t, scanned) := (CompareNumber(stod, f).value, LabelOf(env, f.variable) == "");
      && (scanned || !Exceptional(">", x, t) ==>
            (id in KeptIds(stod, w.db, env, With(f, ">")) <==> Ordinary(x, t) && Scaled(t) < Scaled(x)))
      && (scanned || !Exceptional("<", x, t) ==>
            (id in KeptIds(stod, w.db, env, With(f, "<")) <==> Ordinary(x, t) && Scaled(x) < Scaled(t)))
      && (scanned || !Exceptional(">=", x, t) ==>
            (id in KeptIds(stod, w.db, env, With(f, ">=")) <==> Ordinary(x, t) && Scaled(t) <= Scaled(x)))
      && (scanned || !Exceptional("<=", x, t) ==>
            (id in KeptIds(stod, w.db, env, With(f, "<=")) <==> Ordinary(x, t) && Scaled(x) <= Scaled(t)))
      && (id in KeptIds(stod, w.db, env, With(f, "<>")) <==> !(Ordinary(x, t) && Scaled(x) == Scaled(t)))
  {
    hide Inv, KeptIds, Holder, NodesByProperty, NodesByRange, TextOf, ToKey, LastText, IsIdentifier, NulFree, GetValue, Parse,
      Candidate, HasNumber, CompareDoubles, Exceptional, Scaled, IsNaN;
    var t, lbl := CompareNumber(stod, f).value, LabelOf(env, f.variable);
    HolderValue(stod, w, env, f, id, v);
    HolderIsListed(w, env, f, id, v);
    NumberOperators(x, t);
    forall op ensures id in KeptIds(stod, w.db, env, With(f, op)) <==>
      match IndexAnswer(stod, w.db, With(f, op), lbl)
      case Some(found) => id in found
      case None => NodePasses(stod, w.db, With(f, op), id)
    {
      KeptIs(stod, w.db, env, With(f, op), id);
    }
    if lbl != "" {
      FieldIsNumber(stod, LastText(w, id), f.property, v, x);
      NumberThreshold(stod, w, lbl, f.property, CompareText(f), id, x);
    }
  }

  lemma FieldIsNumber(stod: Stod, text: string, key: string, v: string, x: u64)
    requires Field(key, v) in Parse(text) && v != "" && stod(v) == Some(x)
    ensures HasNumber(stod, text, key, x)
  {
    hide Parse;
  }

  /** A text that is no number passes no comparison with a number, not even <>. */
  lemma TextNeverComparesWithNumber(stod: Stod, w: World, env: Env, f: Filter, id: u64, v: string)
    requires Inv(stod, w) && Holder(w, env, f, id, v) && (v == "" || stod(v).None?) && CompareNumber(stod, f).Some?
    requires RangeOp(f.op) || f.op == "<>"
    ensures id !in KeptIds(stod, w.db, env, f)
  {
    hide Inv, KeptIds, Holder, NodesByProperty, TextOf, ToKey, LastText, IsIdentifier, NulFree, GetValue, Parse,
      Candidate, HasNumber, CompareDoubles, IntervalKeys, Collect, IndexPrefix, CompareEncoded, ValidText;
    HolderValue(stod, w, env, f, id, v);
    HolderIsListed(w, env, f, id, v);
    KeptIs(stod, w.db, env, f, id);
    var lbl := LabelOf(env, f.variable);
    if RangeOp(f.op) && lbl != "" {
      IntervalMembers(stod, w, lbl, f.property, f.op, CompareNumber(stod, f).value, id);
      LastIsValid(stod, w, id);
      if x :| HasNumber(stod, LastText(w, id), f.property, x) {
        NumberIsTheValue(stod, LastText(w, id), f.property, x, v);
      }
    }
  }

  /** Equality: through the index numbers are equal when their patterns are, in the full scan when their
      texts are. */
  lemma EqualNumbersKept(stod: Stod, w: World, env: Env, f: Filter, id: u64, v: string)
    requires Inv(stod, w) && Holder(w, env, f, id, v) && v != "" && CompareNumber(stod, f).Some? && CompareText(f) != ""
    ensures id in KeptIds(stod, w.db, env, With(f, "=")) <==>
      if LabelOf(env, f.variable) != "" then stod(v) == stod(CompareText(f)) else v == CompareText(f)
  {
    hide Inv, KeptIds, Holder, NodesByProperty, TextOf, ToKey, LastText, IsIdentifier, NulFree, GetValue, Parse, HasNumber, Canon,
      Candidate, ValidText;
    var lbl, t, last := LabelOf(env, f.variable), CompareText(f), LastText(w, id);
    HolderValue(stod, w, env, f, id, v);
    HolderIsListed(w, env, f, id, v);
    KeptIs(stod, w.db, env, With(f, "="), id);
    if lbl != "" {
      LookupAnswers(stod, w, lbl, f.property, t);
      LastIsValid(stod, w, id);
      OneCanon(stod, last, f.property, v, t);
      SameCanonSameNumber(stod, v, t);
    }
  }

  lemma OneCanon(stod: Stod, text: string, key: string, v: string, t: string)
    requires ValidText(text) && Field(key, v) in Parse(text)
    ensures HasCanon(stod, text, key, t) <==> Canon(stod, v) == Canon(stod, t)
  {
    hide Canon, Parse, ValidText;
    if HasCanon(stod, text, key, t) {
      var f :| f in Parse(text) && f.key == key && Canon(stod, f.value) == Canon(stod, t);
      assert f == Field(key, f.value);
      OneValue(text, key, v, f.value);
    }
  }

  lemma SameCanonSameNumber(stod: Stod, v: string, t: string)
    requires v != "" && t != "" && stod(t).Some?
    ensures Canon(stod, v) == Canon(stod, t) <==> stod(v) == stod(t)
  {
    CanonIsNumber(stod, "", v, stod(t).value);
    assert "" + Canon(stod, v) == Canon(stod, v) && "" + ([NUMERIC] + Encode(stod(t).value)) == Canon(stod, t);
  }

  /** A live node without the property is never kept. */
  lemma NoValueNotKept(stod: Stod, w: World, env: Env, f: Filter, id: u64, es: seq<Entry>)
    requires Inv(stod, w) && f.variable != "" && IsIdentifier(f.property) && f.variable in env.context
    requires id in w.labels && NulFree(LabelOf(env, f.variable)) && (f.op == "=" || f.op == "<>" || RangeOp(f.op))
    requires PrintedFrom(w, id, es, f.property) && Lookup(es, f.property).None?
    ensures id !in KeptIds(stod, w.db, env, f)
  {
    hide Inv, KeptIds, TextOf, ToKey, LastText, NulFree, GetValue, Parse, KeyFound, Canon, NodesByProperty, IsIdentifier, CompareText,
      IntervalKeys, Collect, LoopResult, IndexPrefix, CompareEncoded, CompareStrings;
    IdentifierNulFree(f.property);
    EmptyIsNoIdentifier(f.property);
    PrintIsText(es);
    LastIsValid(stod, w, id);
    CandidateValue(stod, w, id, es, f.property, CompareText(f));
    NoField(es, f.property);
    KeptIs(stod, w.db, env, f, id);
    var lbl := LabelOf(env, f.variable);
    if f.op == "=" && lbl != "" {
      LookupAnswers(stod, w, lbl, f.property, CompareText(f));
    } else if RangeOp(f.op) && lbl != "" {
      if stod(CompareText(f)).Some? {
        IntervalMembers(stod, w, lbl, f.property, f.op, stod(CompareText(f)).value, id);
      } else {
        StringMembers(stod, w, lbl, f.property, f.op, CompareText(f), id);
      }
    }
  }

  lemma NoField(es: seq<Entry>, key: string)
    requires WellFormed(es) && DistinctKeys(es) && Lookup(es, key).None?
    ensures forall f :: f in Parse(Print(es)) ==> f.key != key
  {
    hide Parse, Print;
    ParsePrint(es);
    LookupIsField(es, key);
  }

  // ---- one operator at a time ----

  /** The string v is on the side of t that the operator asks for. */
  predicate StringPasses(op: string, v: string, t: string) {
    && (op == ">" ==> Less(t, v)) && (op == "<" ==> Less(v, t))
    && (op == ">=" ==> v == t || Less(t, v)) && (op == "<=" ==> v == t || Less(v, t))
    && (op == "=" ==> v == t) && (op == "<>" ==> v != t)
  }

  /** The real value of x is on the side of t's that the operator asks for. */
  predicate RealPasses(op: string, x: u64, t: u64) {
    && (op == ">" ==> Ordinary(x, t) && Scaled(t) < Scaled(x)) && (op == "<" ==> Ordinary(x, t) && Scaled(x) < Scaled(t))
    && (op == ">=" ==> Ordinary(x, t) && Scaled(t) <= Scaled(x)) && (op == "<=" ==> Ordinary(x, t) && Scaled(x) <= Scaled(t))
    && (op == "<>" ==> !(Ordinary(x, t) && Scaled(x) == Scaled(t)))
  }

  predicate Operator(op: string) {
    op == "=" || op == "<>" || RangeOp(op)
  }

  lemma StringKept(stod: Stod, w: World, env: Env, f: Filter, id: u64, v: string)
    requires Inv(stod, w) && Holder(w, env, f, id, v) && Strings(stod, f, v) && Operator(f.op)
    ensures id in KeptIds(stod, w.db, env, f) <==> StringPasses(f.op, v, CompareText(f))
  {
    hide Inv, KeptIds, Holder, Less, CompareText, Strings;
    assert With(f, f.op) == f;
    StringsKept(stod, w, env, f, id, v);
  }

  /** Where the index is not asked, or not wrong. */
  predicate NumberSafe(env: Env, f: Filter, x: u64, t: u64) {
    LabelOf(env, f.variable) == "" || f.op == "<>" || (RangeOp(f.op) && !Exceptional(f.op, x, t))
  }

  lemma NumberKept(stod: Stod, w: World, env: Env, f: Filter, id: u64, v: string, x: u64)
    requires Inv(stod, w) && Holder(w, env, f, id, v) && v != "" && stod(v) == Some(x) && CompareNumber(stod, f).Some?
    requires (RangeOp(f.op) || f.op == "<>") && NumberSafe(env, f, x, CompareNumber(stod, f).value)
    ensures id in KeptIds(stod, w.db, env, f) <==> RealPasses(f.op, x, CompareNumber(stod, f).value)
  {
    hide Inv, KeptIds, Holder, CompareNumber, Scaled, Ordinary, Exceptional;
    assert With(f, f.op) == f;
    NumbersKept(stod, w, env, f, id, v, x);
  }
}
