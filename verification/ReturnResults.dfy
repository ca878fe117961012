/** What RETURN answers, said of the bindings and the values the nodes and edges hold. */
module ReturnResults {
  import opened Bytes
  import opened Ast
  import opened Json
  import opened JsonLaws
  import opened Store
  import opened PropertyIndex
  import opened Runs
  import opened Matching
  import opened ReturnClause
  import opened Answers

  // ---- decimal numbers ----

  predicate AllDigits(s: string) {
    forall i :: 0 <= i < |s| ==> '0' <= s[i] <= '9'
  }

  /** The number the digits stand for. */
  function Number(s: string): nat
    requires AllDigits(s)
  {
    if s == "" then 0 else 10 * Number(s[..|s| - 1]) + (s[|s| - 1] as int - '0' as int)
  }

  lemma {:induction false} NumberOfDecimal(n: nat)
    ensures Decimal(n) != "" && AllDigits(Decimal(n)) && Number(Decimal(n)) == n
  {
    if n >= 10 {
      NumberOfDecimal(n / 10);
      var s := Decimal(n);
      assert s[..|s| - 1] == Decimal(n / 10);
    } else {
      assert Decimal(n)[..0] == "";
    }
  }

  // ---- a printed edge ----

  function EdgeEntries(id: u64, e: Edge): seq<Entry> {
    [Entry("_id", Num(Decimal(id))), Entry("_from", Num(Decimal(e.source))), Entry("_to", Num(Decimal(e.target))),
     Entry("_label", Str(e.lbl))]
  }

  /** Entries stand at p, each followed by a comma and a space, the last by a comma or brace. */
  predicate FrontAt(s: string, p: nat, es: seq<Entry>)
    decreases |es|
  {
    && es != [] && EntryAt(s, p, es[0])
    && var q := EntryEnd(p, es[0]);
       if |es| == 1 then EntryEnds(s, q)
       else q + 2 <= |s| && s[q] == ',' && s[q + 1] == ' ' && FrontAt(s, q + 2, es[1..])
  }

  lemma {:induction false} FrontStands(s: string, p: nat, es: seq<Entry>, rest: string)
    requires es != [] && Stands(s, p, PrintList(es) + rest) && Delimited(rest)
    ensures FrontAt(s, p, es)
    decreases |es|
  {
    hide PrintEntry, EntryAt, EntryEnd, Stands;
    var head := PrintEntry(es[0]);
    if |es| == 1 {
      StandsParts(s, p, head, rest);
      EntryStands(s, p, es[0]);
      StandsFirst(s, p + |head|, rest);
    } else {
      var more := PrintList(es[1..]) + rest;
      assert PrintList(es) + rest == head + (", " + more);
      StandsParts(s, p, head, ", " + more);
      EntryStands(s, p, es[0]);
      StandsParts(s, p + |head|, ", ", more);
      StandsFirst(s, p + |head|, ", ");
      FrontStands(s, p + |head| + 2, es[1..], rest);
    }
  }

  /** The lookup reads the first entries whatever comes after them. */
  lemma {:induction false} GetFront(s: string, p: nat, es: seq<Entry>, k: string, i: nat)
    requires FrontAt(s, p, es) && WellFormed(es) && IsIdentifier(k)
    requires i < |es| && es[i].key == k && forall j :: 0 <= j < i ==> es[j].key != k && es[j].value != Str(k)
    ensures GetFrom(s, k, p) == Erased(es[i].value)
    decreases |es|
  {
    hide GetFrom, EntryAt;
    var q := EntryEnd(p, es[0]);
    assert EntryEnds(s, q);
    GetEntry(s, p, es[0], k);
    if i > 0 {
      GetFromSkips(s, k, q, q + 2);
      assert es[1..][i - 1] == es[i] && forall j :: 0 <= j < i - 1 ==> es[1..][j] == es[j + 1];
      GetFront(s, q + 2, es[1..], k, i - 1);
    }
  }

  function PropertiesPart(e: Edge): string {
    if Plain(e.properties) then "" else ", \"_properties\": " + e.properties
  }

  lemma EntryLine(key: string, token: string)
    ensures PrintEntry(Entry(key, Num(token))) == Quoted(key) + ": " + token
    ensures PrintEntry(Entry(key, Str(token))) == Quoted(key) + ": " + Quoted(token)
  {
  }

  lemma EdgeLines(id: u64, e: Edge)
    ensures PrintList(EdgeEntries(id, e))
         == Quoted("_id") + ": " + Decimal(id) + (", " + (Quoted("_from") + ": " + Decimal(e.source)
            + (", " + (Quoted("_to") + ": " + Decimal(e.target) + (", " + (Quoted("_label") + ": " + Quoted(e.lbl)))))))
  {
    hide Decimal, PrintEntry, Quoted;
    var es := EdgeEntries(id, e);
    EntryLine("_id", Decimal(id));
    EntryLine("_from", Decimal(e.source));
    EntryLine("_to", Decimal(e.target));
    EntryLine("_label", e.lbl);
    assert es[1..][1..] == es[2..] && es[2..][1..] == es[3..] && es[3..] == [es[3]];
    assert PrintList(es[3..]) == PrintEntry(es[3]);
    ThreeMore(PrintEntry(es[0]), PrintEntry(es[1]), PrintEntry(es[2]), PrintEntry(es[3]));
    assert PrintList(es[2..]) == PrintEntry(es[2]) + ", " + PrintList(es[3..]);
    assert PrintList(es[1..]) == PrintEntry(es[1]) + ", " + PrintList(es[2..]);
    assert PrintList(es) == PrintEntry(es[0]) + ", " + PrintList(es[1..]);
  }

  lemma ThreeMore(a: string, b: string, c: string, d: string)
    ensures a + ", " + (b + ", " + (c + ", " + d)) == a + (", " + (b + (", " + (c + (", " + d)))))
  {
  }

  lemma EdgeTextIs(d: Db, id: u64, e: Edge)
    requires GetEdge(d, id) == Some(e)
    ensures EdgeText(d, id) == "{" + (PrintList(EdgeEntries(id, e)) + (PropertiesPart(e) + "}"))
  {
    hide Decimal, GetEdge, Plain, PrintList;
    EdgeLines(id, e);
    assert Quoted("_id") == "\"_id\"" && Quoted("_from") == "\"_from\"" && Quoted("_to") == "\"_to\"" && Quoted("_label") == "\"_label\"";
    Joined(Decimal(id), Decimal(e.source), Decimal(e.target), e.lbl, PropertiesPart(e));
  }

  lemma Joined(a: string, b: string, c: string, l: string, rest: string)
    ensures "{\"_id\": " + a + ", \"_from\": " + b + ", \"_to\": " + c + ", \"_label\": \"" + l + "\"" + rest + "}"
         == "{" + ("\"_id\"" + ": " + a + (", " + ("\"_from\"" + ": " + b + (", " + ("\"_to\"" + ": " + c
            + (", " + ("\"_label\"" + ": " + Quoted(l))))))) + (rest + "}"))
  {
  }

  lemma EdgeEntriesWellFormed(id: u64, e: Edge)
    requires QuoteFree(e.lbl)
    ensures WellFormed(EdgeEntries(id, e))
  {
    hide Decimal;
    NumberOfDecimal(id);
    NumberOfDecimal(e.source);
    NumberOfDecimal(e.target);
    assert IsIdentifier("_id") && IsIdentifier("_from") && IsIdentifier("_to") && IsIdentifier("_label");
  }

  lemma EdgeValue(d: Db, id: u64, e: Edge, i: nat)
    requires GetEdge(d, id) == Some(e) && QuoteFree(e.lbl) && i < 4
    ensures GetValue(EdgeText(d, id), EdgeEntries(id, e)[i].key) == Erased(EdgeEntries(id, e)[i].value)
  {
    hide Decimal, EdgeText, PropertiesPart, PrintList, GetEdge, GetFrom, WellFormed, FrontAt, Stands, QuoteFree, IsIdentifier;
    var es := EdgeEntries(id, e);
    var s, rest := EdgeText(d, id), PropertiesPart(e) + "}";
    EdgeTextIs(d, id, e);
    EdgeEntriesWellFormed(id, e);
    RestDelimits(e);
    EdgeStands(s, PrintList(es) + rest);
    FrontStands(s, 1, es, rest);
    EdgeKeys(id, e);
    GetFromSkips(s, es[i].key, 0, 1);
    GetFront(s, 1, es, es[i].key, i);
  }

  lemma RestDelimits(e: Edge)
    ensures Delimited(PropertiesPart(e) + "}")
  {
  }

  lemma EdgeStands(s: string, t: string)
    requires s == "{" + t
    ensures Stands(s, 1, t) && s != "" && s[0] == '{'
  {
  }

  lemma EdgeKeys(id: u64, e: Edge)
    ensures forall i :: 0 <= i < 4 ==> IsIdentifier(EdgeEntries(id, e)[i].key)
    ensures forall i, j :: 0 <= j < i < 4 ==>
      EdgeEntries(id, e)[j].key != EdgeEntries(id, e)[i].key && EdgeEntries(id, e)[j].value.Num?
  {
    hide Decimal;
    assert IsIdentifier("_id") && IsIdentifier("_from") && IsIdentifier("_to") && IsIdentifier("_label");
  }

  /** A returned edge names itself, where it comes from, where it leads and its type. */
  ghost predicate ShowsEdge(text: string, id: u64, e: Edge) {
    && ShowsNumber(GetValue(text, "_id"), id)
    && ShowsNumber(GetValue(text, "_from"), e.source)
    && ShowsNumber(GetValue(text, "_to"), e.target)
    && GetValue(text, "_label") == e.lbl
  }

  predicate ShowsNumber(digits: string, n: nat) {
    digits != "" && AllDigits(digits) && Number(digits) == n
  }

  lemma EdgeReads(d: Db, id: u64, e: Edge)
    requires GetEdge(d, id) == Some(e) && QuoteFree(e.lbl)
    ensures ShowsEdge(EdgeText(d, id), id, e)
  {
    hide EdgeText, GetValue, Decimal, GetEdge, QuoteFree, Number;
    NumberOfDecimal(id);
    NumberOfDecimal(e.source);
    NumberOfDecimal(e.target);
    EdgeValue(d, id, e, 0);
    EdgeValue(d, id, e, 1);
    EdgeValue(d, id, e, 2);
    EdgeValue(d, id, e, 3);
  }

  // ---- cells ----

  /** How a stored value is shown: quoted unless it begins like a number, and null if there is none. */
  function ValueCell(stored: Option<Value>): Cell {
    match stored
    case None => Token("null")
    case Some(v) =>
      var t := Erased(v);
      if t == "" then Token("null")
      else if '0' <= t[0] <= '9' || t[0] == '-' then Token(t)
      else Text(t)
  }

  /** The cell shows what the id stands for: for x.key the value stored under the key, for x the node's text
      or else the edge. */
  ghost predicate Shows(w: World, expr: Expr<Lit>, id: u64, c: Cell) {
    if expr.PropertyAccess? then ShowsProperty(w, expr.key, id, c) else ShowsThing(w, id, c)
  }

  ghost predicate ShowsProperty(w: World, key: string, id: u64, c: Cell) {
    && (NodeText(w.db, id) == "" ==> c == Token("null"))
    && forall es :: PrintedWith(w, id, es, key) ==> c == ValueCell(Lookup(es, key))
  }

  ghost predicate ShowsThing(w: World, id: u64, c: Cell) {
    if NodeText(w.db, id) != "" then c == Object(NodeText(w.db, id))
    else if id in w.edges && id !in w.deletedEdges then c.Object? && ShowsEdge(c.text, id, w.edges[id])
    else c == Token("null")
  }

  ghost predicate PrintedWith(w: World, id: u64, es: seq<Entry>, key: string) {
    NodeText(w.db, id) == Print(es) && WellFormed(es) && KeyFound(es, key)
  }

  /** Row i shows the i-th id of the item's list, and null beyond its end. */
  ghost predicate ShowsRow(w: World, env: Env, item: Item<Lit>, row: nat, c: Cell) {
    var ids := Bound(env, ItemVariable(item));
    if row < |ids| then Shows(w, item.expr, ids[row], c) else c == Token("null")
  }

  /** The column has the alias, or is named like the expression. */
  predicate NamedFor(item: Item<Lit>, name: string) {
    if item.alias != "" then name == item.alias else
    match item.expr
    case Variable(x) => name == x
    case PropertyAccess(x, key) => name == x + "." + key
    case _ => false
  }

  // ---- what can be read back ----

  predicate GoodItem(item: Item<Lit>) {
    && (item.expr.Variable? || item.expr.PropertyAccess?) && ItemVariable(item) != "" && QuoteFree(Alias(item))
    && (item.expr.PropertyAccess? ==> IsIdentifier(item.expr.key))
  }

  /** A value that begins like a number is printed without quotes, so it must not contain what ends it. */
  predicate Separable(v: string) {
    v != "" && ('0' <= v[0] <= '9' || v[0] == '-') ==> forall i :: 0 <= i < |v| ==> v[i] != ',' && v[i] != '}'
  }

  ghost predicate ValueShowable(w: World, id: u64, key: string) {
    NodeText(w.db, id) != "" ==>
      exists es :: PrintedWith(w, id, es, key) && (Lookup(es, key).Some? ==> Separable(Erased(Lookup(es, key).value)))
  }

  ghost predicate TextShowable(w: World, id: u64) {
    && (NodeText(w.db, id) != "" ==> IsPrinted(NodeText(w.db, id)))
    && (id in w.edges ==> QuoteFree(w.edges[id].lbl) && (Plain(w.edges[id].properties) || IsPrinted(w.edges[id].properties)))
  }

  ghost predicate IsPrinted(text: string) {
    exists es :: WellFormed(es) && text == Print(es)
  }

  ghost predicate ExprShowable(w: World, expr: Expr<Lit>, id: u64) {
    if expr.PropertyAccess? then ValueShowable(w, id, expr.key) else TextShowable(w, id)
  }

  ghost predicate Showable(w: World, env: Env, item: Item<Lit>) {
    forall id :: id in Bound(env, ItemVariable(item)) ==> ExprShowable(w, item.expr, id)
  }

  // ---- one cell ----

  function CellFor(d: Db, expr: Expr<Lit>, id: u64): Cell {
    match expr
    case PropertyAccess(_, key) =>
      var v := GetValue(NodeText(d, id), key);
      if NodeText(d, id) == "" || v == "" then Token("null") else if LooksNumeric(v) then Token(v) else Text(v)
    case _ =>
      if NodeText(d, id) != "" then Object(NodeText(d, id))
      else if GetEdge(d, id).Some? then Object(EdgeText(d, id)) else Token("null")
  }

  function RowCell(d: Db, env: Env, item: Item<Lit>, row: nat): Cell {
    if row < |Bound(env, ItemVariable(item))| then CellFor(d, item.expr, Bound(env, ItemVariable(item))[row]) else Token("null")
  }

  lemma ItemIsColumn(d: Db, env: Env, item: Item<Lit>, row: nat)
    requires GoodItem(item)
    ensures ItemText(d, env, item, row) == ColumnText(Column(Alias(item), RowCell(d, env, item, row)))
  {
    hide GetValue, Decimal, TextOf, GetEdge;
  }

  lemma PropertyCell(w: World, id: u64, x: string, key: string)
    requires ValueShowable(w, id, key) && IsIdentifier(key)
    ensures Shows(w, PropertyAccess(x, key), id, CellFor(w.db, PropertyAccess(x, key), id))
    ensures Readable(CellFor(w.db, PropertyAccess(x, key), id))
  {
    hide GetValue, Print, KeyFound, TextOf, IsIdentifier, Lookup, Readable, QuoteFree, Separable;
    var text := NodeText(w.db, id);
    forall es | PrintedWith(w, id, es, key)
      ensures text != "" && GetValue(text, key) == match Lookup(es, key) case None => "" case Some(v) => Erased(v)
    {
      HelpersCommuteWithPrinterIff(es, key);
      PrintIsText(es);
    }
    if text != "" {
      var es :| PrintedWith(w, id, es, key) && (Lookup(es, key).Some? ==> Separable(Erased(Lookup(es, key).value)));
      if Lookup(es, key).Some? {
        StoredIsQuoteFree(es, key);
        if Erased(Lookup(es, key).value) != "" { ValueReadable(Erased(Lookup(es, key).value)); }
      }
    }
    NullIsReadable();
  }

  lemma ValueReadable(v: string)
    requires QuoteFree(v) && Separable(v) && v != ""
    ensures Readable(if LooksNumeric(v) then Token(v) else Text(v))
  {
  }

  lemma {:induction false} StoredIsQuoteFree(es: seq<Entry>, key: string)
    requires WellFormed(es) && Lookup(es, key).Some?
    ensures QuoteFree(Erased(Lookup(es, key).value))
  {
    if es[0].key != key {
      StoredIsQuoteFree(es[1..], key);
    } else {
      assert WellFormedEntry(es[0]);
    }
  }

  lemma VariableCell(stod: Stod, w: World, id: u64, x: string)
    requires Inv(stod, w) && TextShowable(w, id)
    ensures Shows(w, Variable(x), id, CellFor(w.db, Variable(x), id)) && Readable(CellFor(w.db, Variable(x), id))
  {
    hide Inv, Print, TextOf, GetEdge, EdgeText, Neutral, ShowsEdge, WellFormed, Readable;
    EdgeIs(stod, w, id);
    if NodeText(w.db, id) != "" {
      var es :| WellFormed(es) && NodeText(w.db, id) == Print(es);
      PrintedIsReadable(es);
    } else if GetEdge(w.db, id).Some? {
      EdgeReads(w.db, id, w.edges[id]);
      EdgeIsReadable(w.db, id, w.edges[id]);
    } else {
      NullIsReadable();
    }
  }

  lemma NullIsReadable()
    ensures Readable(Token("null"))
  {
  }

  lemma EdgeIsReadable(d: Db, id: u64, e: Edge)
    requires GetEdge(d, id) == Some(e) && QuoteFree(e.lbl) && (Plain(e.properties) || IsPrinted(e.properties))
    ensures Readable(Object(EdgeText(d, id)))
  {
    hide Decimal, GetEdge, EdgeText, PrintList, Neutral, QuoteFree, WellFormed;
    EdgeTextIs(d, id, e);
    EdgeEntriesWellFormed(id, e);
    var list, props := PrintList(EdgeEntries(id, e)), PropertiesPart(e);
    ListNeutral(EdgeEntries(id, e));
    PropertiesNeutral(e);
    NeutralBoth(list, props);
    assert "{" + (list + (props + "}")) == "{" + (list + props) + "}";
  }

  lemma PropertiesNeutral(e: Edge)
    requires Plain(e.properties) || IsPrinted(e.properties)
    ensures Neutral(PropertiesPart(e))
  {
    hide Neutral, WellFormed, PrintList;
    if Plain(e.properties) {
      PlainNeutral("");
    } else {
      var es :| WellFormed(es) && e.properties == Print(es);
      ListNeutral(es);
      BracedNeutral(PrintList(es));
      PlainNeutral(", ");
      QuotedNeutral("_properties");
      PlainNeutral(": ");
      NeutralBoth(": ", e.properties);
      NeutralBoth(Quoted("_properties"), ": " + e.properties);
      NeutralBoth(", ", Quoted("_properties") + (": " + e.properties));
      assert PropertiesPart(e) == ", " + (Quoted("_properties") + (": " + e.properties));
    }
  }

  lemma RowCellShows(stod: Stod, w: World, env: Env, item: Item<Lit>, row: nat)
    requires Inv(stod, w) && GoodItem(item) && Showable(w, env, item)
    ensures ShowsRow(w, env, item, row, RowCell(w.db, env, item, row)) && Readable(RowCell(w.db, env, item, row))
    ensures NamedFor(item, Alias(item)) && QuoteFree(Alias(item))
  {
    hide Inv, CellFor, Shows, ValueShowable, TextShowable, Readable, QuoteFree, IsIdentifier;
    var ids := Bound(env, ItemVariable(item));
    if row < |ids| {
      assert ids[row] in ids;
      match item.expr
      case PropertyAccess(x, key) => PropertyCell(w, ids[row], x, key);
      case Variable(x) => VariableCell(stod, w, ids[row], x);
    } else {
      NullIsReadable();
    }
  }

  // ---- the whole answer ----

  /** max(1, the longest list of a returned variable). */
  lemma {:induction false} RowsAre(env: Env, items: seq<Item<Lit>>)
    ensures forall i :: 0 <= i < |items| && ItemVariable(items[i]) != "" ==>
      |Bound(env, ItemVariable(items[i]))| <= RowCount(env, items)
    ensures RowCount(env, items) > 1 ==> exists i :: 0 <= i < |items| && |Bound(env, ItemVariable(items[i]))| == RowCount(env, items)
  {
    hide ItemVariable, Bound;
    if items != [] {
      var n := |items| - 1;
      RowsAre(env, items[..n]);
      assert forall i :: 0 <= i < n ==> items[..n][i] == items[i];
    }
  }

  function RowOf(d: Db, env: Env, items: seq<Item<Lit>>, row: nat): (cs: seq<Column>)
    ensures |cs| == |items|
  {
    seq(|items|, i requires 0 <= i < |items| => Column(Alias(items[i]), RowCell(d, env, items[i], row)))
  }

  function RowsOf(d: Db, env: Env, items: seq<Item<Lit>>, n: nat): (rows: seq<seq<Column>>)
    ensures |rows| == n
  {
    seq(n, i requires 0 <= i < n => RowOf(d, env, items, i))
  }

  lemma {:induction false} ItemsAreColumns(d: Db, env: Env, items: seq<Item<Lit>>, row: nat)
    requires forall i :: 0 <= i < |items| ==> GoodItem(items[i])
    ensures ItemsText(d, env, items, row) == Commas(ColumnTexts(RowOf(d, env, items, row)))
  {
    hide ItemText, ColumnText, RowCell, GoodItem, Commas;
    if items == [] {
      assert ColumnTexts([]) == [];
      NoParts();
    } else {
      var n := |items| - 1;
      ItemsAreColumns(d, env, items[..n], row);
      ItemIsColumn(d, env, items[n], row);
      var before := ColumnTexts(RowOf(d, env, items[..n], row));
      var last := ColumnText(RowOf(d, env, items, row)[n]);
      assert ColumnTexts(RowOf(d, env, items, row)) == before + [last];
      CommasMore(before, last);
      assert "" + "" + last == last;
    }
  }

  lemma NoParts()
    ensures Commas([]) == ""
  {
  }

  lemma {:induction false} RowsAreObjects(d: Db, env: Env, items: seq<Item<Lit>>, n: nat)
    requires forall i :: 0 <= i < |items| ==> GoodItem(items[i])
    ensures RowsText(d, env, items, n) == Commas(RowTexts(RowsOf(d, env, items, n)))
  {
    hide ItemsText, ColumnTexts, RowOf, GoodItem, Commas;
    if n == 0 {
      assert RowTexts([]) == [];
      NoParts();
    } else {
      RowsAreObjects(d, env, items, n - 1);
      ItemsAreColumns(d, env, items, n - 1);
      var before := RowTexts(RowsOf(d, env, items, n - 1));
      var last := RowText(RowsOf(d, env, items, n)[n - 1]);
      assert RowTexts(RowsOf(d, env, items, n)) == before + [last];
      CommasMore(before, last);
      var line := ItemsText(d, env, items, n - 1);
      assert last == "{" + line + "}";
      assert Commas(before) + ", " + "{" + line + "}" == Commas(before) + ", " + last;
      assert "" + "" + "{" + line + "}" == last;
    }
  }

  /** Each row has one column per item, named for it, and shows what the item's list has at the row. */
  ghost predicate AnswersFor(w: World, env: Env, items: seq<Item<Lit>>, rows: seq<seq<Column>>) {
    forall i, j :: 0 <= i < |rows| && 0 <= j < |items| ==>
      |rows[i]| == |items| && NamedFor(items[j], rows[i][j].name) && ShowsRow(w, env, items[j], i, rows[i][j].cell)
  }

  /** max(1, the longest list of a returned variable), in so many words. */
  ghost predicate LongestList(env: Env, items: seq<Item<Lit>>, n: nat) {
    && n >= 1 && (forall j :: 0 <= j < |items| ==> |Bound(env, ItemVariable(items[j]))| <= n)
    && (n > 1 ==> exists j :: 0 <= j < |items| && |Bound(env, ItemVariable(items[j]))| == n)
  }

  ghost predicate AllShowable(w: World, env: Env, items: seq<Item<Lit>>) {
    forall j :: 0 <= j < |items| ==> GoodItem(items[j]) && Showable(w, env, items[j])
  }

  /** The reader gets the rows the printer had. */
  lemma AnswerIsRows(stod: Stod, w: World, env: Env, items: seq<Item<Lit>>)
    requires Inv(stod, w) && AllShowable(w, env, items)
    ensures ReadAnswer(ReturnText(w.db, env, items)) == RowsOf(w.db, env, items, RowCount(env, items))
  {
    hide Inv, RowsText, ReadableRow, RowCount, Showable, GoodItem, RowOf, RowTexts, ReadRows, Commas;
    var n := RowCount(env, items);
    RowsAreObjects(w.db, env, items, n);
    var rows: seq<seq<Column>> := RowsOf(w.db, env, items, n);
    forall i | 0 <= i < n ensures ReadableRow(rows[i]) { RowIsReadable(stod, w, env, items, i); }
    ReadRowsIs(rows);
    var text := Commas(RowTexts(rows));
    assert ReturnText(w.db, env, items) == "[" + text + "]" && ("[" + text + "]")[1..] == text + "]";
  }

  lemma RowIsReadable(stod: Stod, w: World, env: Env, items: seq<Item<Lit>>, row: nat)
    requires Inv(stod, w) && AllShowable(w, env, items)
    ensures ReadableRow(RowOf(w.db, env, items, row))
  {
    hide Inv, ShowsRow, RowCell, NamedFor, Readable, QuoteFree, Showable, GoodItem;
    var cs := RowOf(w.db, env, items, row);
    forall j | 0 <= j < |cs| ensures QuoteFree(cs[j].name) && Readable(cs[j].cell) {
      RowCellShows(stod, w, env, items[j], row);
    }
  }

  lemma RowsShow(stod: Stod, w: World, env: Env, items: seq<Item<Lit>>, n: nat)
    requires Inv(stod, w) && AllShowable(w, env, items)
    ensures AnswersFor(w, env, items, RowsOf(w.db, env, items, n))
  {
    hide Inv, ShowsRow, RowCell, NamedFor, Readable, QuoteFree, Showable, GoodItem;
    var rows: seq<seq<Column>> := RowsOf(w.db, env, items, n);
    forall i, j | 0 <= i < n && 0 <= j < |items|
      ensures NamedFor(items[j], rows[i][j].name) && ShowsRow(w, env, items[j], i, rows[i][j].cell)
    {
      RowCellShows(stod, w, env, items[j], i);
    }
  }

  lemma CountIsLongest(w: World, env: Env, items: seq<Item<Lit>>)
    requires AllShowable(w, env, items)
    ensures LongestList(env, items, RowCount(env, items))
  {
    hide Showable, Bound, ItemVariable, Alias, QuoteFree, IsIdentifier;
    RowsAre(env, items);
    assert forall j :: 0 <= j < |items| ==> GoodItem(items[j]);
  }

  /** Reading the answer back: as many rows as the longest list has ids, and at least one; row i shows the
      i-th id of each list, stored values under the keys asked for, nodes by their text, edges by their
      ids, ends and type, and null where there is nothing. */
  lemma AnswerReads(stod: Stod, w: World, env: Env, items: seq<Item<Lit>>)
    requires Inv(stod, w) && AllShowable(w, env, items)
    ensures var rows := ReadAnswer(ReturnText(w.db, env, items));
      LongestList(env, items, |rows|) && AnswersFor(w, env, items, rows)
  {
    hide Inv, AllShowable, ReadAnswer, ReturnText, RowCount, LongestList, AnswersFor, RowOf;
    AnswerIsRows(stod, w, env, items);
    RowsShow(stod, w, env, items, RowCount(env, items));
    CountIsLongest(w, env, items);
  }
}
