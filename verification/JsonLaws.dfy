/** The printer `executor::evaluate_properties` writes property texts with, and how the three text
    helpers act on everything it prints. */
module JsonLaws {
  import opened Bytes
  import opened Json

  datatype Value = Str(text: string) | Num(token: string)
  datatype Entry = Entry(key: string, value: Value)

  function Erased(v: Value): string {
    match v case Str(s) => s case Num(t) => t
  }

  function Printed(v: Value): string {
    ValueText(Erased(v), v.Str?)
  }

  function PrintEntry(e: Entry): string {
    "\"" + (e.key + ("\": " + Printed(e.value)))
  }

  function PrintList(es: seq<Entry>): string {
    if es == [] then "" else
    if |es| == 1 then PrintEntry(es[0]) else PrintEntry(es[0]) + ", " + PrintList(es[1..])
  }

  function Print(es: seq<Entry>): string {
    "{" + PrintList(es) + "}"
  }

  function Erase(es: seq<Entry>): (fs: seq<Field>)
    ensures |fs| == |es|
  {
    seq(|es|, i requires 0 <= i < |es| => Field(es[i].key, Erased(es[i].value)))
  }

  predicate IsIdentifierChar(c: char) {
    'a' <= c <= 'z' || 'A' <= c <= 'Z' || '0' <= c <= '9' || c == '_'
  }

  predicate IsIdentifier(s: string) {
    s != "" && forall i :: 0 <= i < |s| ==> IsIdentifierChar(s[i])
  }

  predicate IsNumberChar(c: char) {
    '0' <= c <= '9' || c == '.' || c == '-' || c == '+' || c == 'e'
  }

  /** What the lexer lets through: strings without quotes and tokens of number characters. */
  predicate WellFormedValue(v: Value) {
    match v
    case Str(s) => forall i :: 0 <= i < |s| ==> s[i] != '"'
    case Num(t) => t != "" && forall i :: 0 <= i < |t| ==> IsNumberChar(t[i])
  }

  predicate WellFormedEntry(e: Entry) {
    IsIdentifier(e.key) && WellFormedValue(e.value)
  }

  predicate WellFormed(es: seq<Entry>) {
    forall i :: 0 <= i < |es| ==> WellFormedEntry(es[i])
  }

  predicate DistinctKeys(es: seq<Entry>) {
    forall i, j :: 0 <= i < j < |es| ==> es[i].key != es[j].key
  }

  // ---- which entry the helpers pick ----

  /** The first entry that shows the quoted text k, as its key or as its string value. */
  function FirstShowing(es: seq<Entry>, k: string): (i: nat)
    ensures i <= |es|
    ensures i < |es| ==> es[i].key == k || es[i].value == Str(k)
    ensures forall j :: 0 <= j < i ==> es[j].key != k && es[j].value != Str(k)
  {
    if es == [] || es[0].key == k || es[0].value == Str(k) then 0 else 1 + FirstShowing(es[1..], k)
  }

  /** The entry whose value get_json_value reads and update_json_property overwrites: a string value
      that equals k is taken for the key, which leads to the entry after it. |es| means none. */
  function Picked(es: seq<Entry>, k: string): (i: nat)
    ensures i <= |es|
  {
    var i := FirstShowing(es, k);
    if i == |es| || es[i].key == k then i else i + 1
  }

  function ReadPicked(es: seq<Entry>, k: string): string {
    var i := Picked(es, k);
    if i < |es| then Erased(es[i].value) else ""
  }

  function UpdatePicked(es: seq<Entry>, k: string, v: Value): seq<Entry> {
    if FirstShowing(es, k) == |es| then es + [Entry(k, v)] else
    var i := Picked(es, k);
    if i < |es| then es[i := Entry(es[i].key, v)] else es
  }

  // ---- searches on printed text ----

  lemma {:induction false} FindIs(s: string, cs: Chars, pos: nat, n: nat)
    requires pos <= n <= |s|
    requires forall i :: pos <= i < n ==> !Has(cs, s[i])
    requires n == |s| || Has(cs, s[n])
    ensures Find(s, cs, pos) == n
    decreases n - pos
  {
    if pos < n { FindIs(s, cs, pos + 1, n); }
  }

  lemma {:induction false} SkipIs(s: string, cs: Chars, pos: nat, n: nat)
    requires pos <= n <= |s|
    requires forall i :: pos <= i < n ==> Has(cs, s[i])
    requires n == |s| || !Has(cs, s[n])
    ensures Skip(s, cs, pos) == n
    decreases n - pos
  {
    if pos < n { SkipIs(s, cs, pos + 1, n); }
  }

  /** Positions inside one printed entry. */
  function ValueAt(p: nat, e: Entry): nat { p + |e.key| + 4 }
  function EntryEnd(p: nat, e: Entry): nat { ValueAt(p, e) + |Printed(e.value)| }

  /** The characters of t stand in s from p on. */
  predicate Stands(s: string, p: nat, t: string) {
    p + |t| <= |s| && forall i :: 0 <= i < |t| ==> s[p + i] == t[i]
  }

  lemma StandsSlice(s: string, p: nat, t: string)
    requires Stands(s, p, t)
    ensures s[p..p + |t|] == t
  {
  }

  /** A printed entry stands at p. */
  predicate EntryAt(s: string, p: nat, e: Entry) {
    && EntryEnd(p, e) <= |s|
    && s[p] == '"' && Stands(s, p + 1, e.key)
    && s[p + |e.key| + 1] == '"' && s[p + |e.key| + 2] == ':' && s[p + |e.key| + 3] == ' '
    && Stands(s, ValueAt(p, e), Printed(e.value))
  }

  predicate EntryEnds(s: string, q: nat) {
    q < |s| && (s[q] == ',' || s[q] == '}')
  }

  /** Printed entries fill s from p to the closing brace, which is the last character. */
  predicate ListAt(s: string, p: nat, es: seq<Entry>)
    decreases |es|
  {
    && es != [] && EntryAt(s, p, es[0])
    && var q := EntryEnd(p, es[0]);
       if |es| == 1 then q + 1 == |s| && s[q] == '}'
       else q + 2 <= |s| && s[q] == ',' && s[q + 1] == ' ' && ListAt(s, q + 2, es[1..])
  }

  lemma StandsParts(s: string, p: nat, a: string, b: string)
    requires Stands(s, p, a + b)
    ensures Stands(s, p, a) && Stands(s, p + |a|, b)
  {
    forall i | 0 <= i < |a| ensures s[p + i] == a[i] { assert (a + b)[i] == a[i]; }
    forall i | 0 <= i < |b| ensures s[p + |a| + i] == b[i] { assert (a + b)[|a| + i] == b[i]; }
  }

  lemma EntryStands(s: string, p: nat, e: Entry)
    requires Stands(s, p, PrintEntry(e))
    ensures EntryAt(s, p, e) && EntryEnd(p, e) == p + |PrintEntry(e)|
  {
    var value := Printed(e.value);
    hide Printed, Stands;
    StandsParts(s, p, "\"", e.key + ("\": " + value));
    StandsParts(s, p + 1, e.key, "\": " + value);
    StandsParts(s, p + 1 + |e.key|, "\": ", value);
    StandsFirst(s, p, "\"");
    StandsFirst(s, p + 1 + |e.key|, "\": ");
  }

  lemma StandsFirst(s: string, p: nat, t: string)
    requires Stands(s, p, t)
    ensures |t| >= 1 ==> p < |s| && s[p] == t[0]
    ensures |t| >= 2 ==> p + 1 < |s| && s[p + 1] == t[1]
    ensures |t| >= 3 ==> p + 2 < |s| && s[p + 2] == t[2]
    ensures p + |t| <= |s|
  {
    assert |t| >= 1 ==> s[p + 0] == t[0];
  }

  lemma {:induction false} ListStands(s: string, p: nat, es: seq<Entry>)
    requires es != [] && Stands(s, p, PrintList(es) + "}") && |s| == p + |PrintList(es)| + 1
    ensures ListAt(s, p, es)
    decreases |es|
  {
    hide PrintEntry, EntryAt, EntryEnd, Stands;
    var head := PrintEntry(es[0]);
    if |es| == 1 {
      StandsParts(s, p, head, "}");
      EntryStands(s, p, es[0]);
      StandsFirst(s, p + |head|, "}");
    } else {
      var rest := PrintList(es[1..]) + "}";
      assert PrintList(es) + "}" == head + (", " + rest);
      StandsParts(s, p, head, ", " + rest);
      EntryStands(s, p, es[0]);
      StandsParts(s, p + |head|, ", ", rest);
      StandsFirst(s, p + |head|, ", ");
      ListStands(s, p + |head| + 2, es[1..]);
    }
  }

  lemma PrintStands(es: seq<Entry>)
    requires es != []
    ensures ListAt(Print(es), 1, es)
  {
    var s := Print(es);
    assert s == "{" + (PrintList(es) + "}");
    assert Stands(s, 0, s);
    StandsParts(s, 0, "{", PrintList(es) + "}");
    ListStands(s, 1, es);
  }

  lemma PrintBraces(es: seq<Entry>)
    ensures |Print(es)| >= 2 && Print(es)[0] == '{'
    ensures es == [] ==> Print(es) == "{}"
  {
  }

  /** A quoted, quote-free text stands at v. */
  predicate StringAt(s: string, v: nat, t: string) {
    && v + 1 + |t| < |s| && s[v] == '"' && Stands(s, v + 1, t) && s[v + 1 + |t|] == '"'
    && forall i :: v < i <= v + |t| ==> s[i] != '"'
  }

  /** A number token stands at v. */
  predicate NumberAt(s: string, v: nat, t: string) {
    t != "" && Stands(s, v, t) && forall i :: v <= i < v + |t| ==> IsNumberChar(s[i])
  }

  /** The quoted key, the colon and the space. */
  predicate KeyPart(s: string, p: nat, key: string) {
    && p + |key| + 4 <= |s| && StringAt(s, p, key)
    && s[p + |key| + 2] == ':' && s[p + |key| + 3] == ' '
    && forall i :: p <= i < p + |key| + 2 ==> s[i] != ':'
  }

  lemma KeyCharacters(s: string, p: nat, e: Entry)
    requires EntryAt(s, p, e) && IsIdentifier(e.key)
    ensures KeyPart(s, p, e.key)
  {
    hide Printed;
    forall i | p < i <= p + |e.key| ensures IsIdentifierChar(s[i]) {
      assert s[p + 1 + (i - p - 1)] == e.key[i - p - 1];
    }
  }

  lemma ValueCharacters(s: string, p: nat, e: Entry)
    requires EntryAt(s, p, e) && WellFormedValue(e.value)
    ensures e.value.Str? ==> StringAt(s, ValueAt(p, e), e.value.text) && EntryEnd(p, e) == ValueAt(p, e) + |e.value.text| + 2
    ensures e.value.Num? ==> NumberAt(s, ValueAt(p, e), e.value.token) && EntryEnd(p, e) == ValueAt(p, e) + |e.value.token|
  {
    var v := ValueAt(p, e);
    match e.value {
      case Str(t) =>
        assert Printed(e.value) == "\"" + (t + "\"");
        StandsParts(s, v, "\"", t + "\"");
        StandsParts(s, v + 1, t, "\"");
        StandsFirst(s, v, "\"");
        StandsFirst(s, v + 1 + |t|, "\"");
        forall i | v < i <= v + |t| ensures s[i] != '"' { assert s[v + 1 + (i - v - 1)] == t[i - v - 1]; }
      case Num(t) =>
        forall i | v <= i < v + |t| ensures IsNumberChar(s[i]) { assert s[v + (i - v)] == t[i - v]; }
    }
  }

  lemma EntryParts(s: string, p: nat, e: Entry)
    requires EntryAt(s, p, e) && WellFormedEntry(e)
    ensures KeyPart(s, p, e.key)
    ensures e.value.Str? ==> StringAt(s, ValueAt(p, e), e.value.text) && EntryEnd(p, e) == ValueAt(p, e) + |e.value.text| + 2
    ensures e.value.Num? ==> NumberAt(s, ValueAt(p, e), e.value.token) && EntryEnd(p, e) == ValueAt(p, e) + |e.value.token|
  {
    hide EntryAt, IsIdentifier, WellFormedValue;
    KeyCharacters(s, p, e);
    ValueCharacters(s, p, e);
  }

  // ---- where the searches lead ----

  lemma StringSearch(s: string, v: nat, t: string)
    requires StringAt(s, v, t)
    ensures v + 1 + |t| < |s| && s[v] == '"' && s[v + 1..v + 1 + |t|] == t
    ensures Find(s, QUOTE, v) == v && Find(s, QUOTE, v + 1) == v + 1 + |t|
  {
    hide Find;
    FindIs(s, QUOTE, v, v);
    FindIs(s, QUOTE, v + 1, v + 1 + |t|);
    StandsSlice(s, v + 1, t);
  }

  lemma NumberSearch(s: string, v: nat, t: string)
    requires NumberAt(s, v, t) && EntryEnds(s, v + |t|)
    ensures t != "" && v < |s| && s[v] != '"' && s[v] != ' ' && s[v..v + |t|] == t
    ensures Find(s, VALUE_END, v) == v + |t| && Find(s, UPDATE_END, v) == v + |t|
  {
    hide Find, Stands;
    assert IsNumberChar(s[v]);
    FindIs(s, VALUE_END, v, v + |t|);
    FindIs(s, UPDATE_END, v, v + |t|);
    StandsSlice(s, v, t);
  }

  lemma KeySearch(s: string, p: nat, key: string, from: nat)
    requires KeyPart(s, p, key) && from <= p + |key| + 2 && forall i :: from <= i < p + |key| + 2 ==> s[i] != ':'
    ensures p + |key| + 4 <= |s| && Find(s, COLON, from) == p + |key| + 2
    ensures p + |key| + 4 < |s| && s[p + |key| + 4] != ' ' ==> Skip(s, SPACE, p + |key| + 3) == p + |key| + 4
  {
    hide Find, Skip, StringAt;
    FindIs(s, COLON, from, p + |key| + 2);
    if p + |key| + 4 < |s| && s[p + |key| + 4] != ' ' {
      SkipIs(s, SPACE, p + |key| + 3, p + |key| + 4);
    }
  }

  /** Where the searches for the value of an entry lead. */
  ghost predicate ValueSearch(s: string, v: nat, value: Value, end: nat) {
    v < end < |s| && s[v] != ' ' &&
    match value
    case Str(t) => s[v] == '"' && Find(s, QUOTE, v + 1) + 1 == end && s[v + 1..end - 1] == t
    case Num(t) =>
      s[v] != '"' && Find(s, VALUE_END, v) == end && Find(s, UPDATE_END, v) == end && s[v..end] == t
  }

  lemma EntrySearch(s: string, p: nat, e: Entry)
    requires EntryAt(s, p, e) && WellFormedEntry(e) && EntryEnds(s, EntryEnd(p, e))
    ensures KeyPart(s, p, e.key) && ValueSearch(s, ValueAt(p, e), e.value, EntryEnd(p, e))
  {
    hide EntryAt, WellFormedEntry, StringAt, NumberAt, KeyPart, Find;
    EntryParts(s, p, e);
    match e.value {
      case Str(t) => StringSearch(s, ValueAt(p, e), t);
      case Num(t) => NumberSearch(s, ValueAt(p, e), t);
    }
  }

  // ---- parse ----

  lemma ParseKey(s: string, p: nat, key: string)
    requires KeyPart(s, p, key)
    ensures ParseFields(s, p) == ParseValue(s, key, p + |key| + 2)
  {
    hide KeyPart, StringAt, Find, Skip, ParseValue;
    KeyIsString(s, p, key);
    StringSearch(s, p, key);
  }

  lemma ParseEntryValue(s: string, p: nat, key: string, value: Value, end: nat)
    requires KeyPart(s, p, key) && ValueSearch(s, p + |key| + 4, value, end)
    ensures ParseValue(s, key, p + |key| + 2) == [Field(key, Erased(value))] + ParseRest(s, end)
  {
    hide KeyPart, Find, Skip, ParseRest;
    KeySearch(s, p, key, p + |key| + 2);
  }

  lemma ParseEntry(s: string, p: nat, e: Entry)
    requires EntryAt(s, p, e) && WellFormedEntry(e)
    requires EntryEnds(s, EntryEnd(p, e))
    ensures ParseFields(s, p) == [Field(e.key, Erased(e.value))] + ParseRest(s, EntryEnd(p, e))
  {
    hide EntryAt, WellFormedEntry, EntryEnds, KeyPart, ValueSearch, ParseFields, ParseValue, ParseRest;
    EntrySearch(s, p, e);
    ParseKey(s, p, e.key);
    ParseEntryValue(s, p, e.key, e.value, EntryEnd(p, e));
  }

  lemma KeyIsString(s: string, p: nat, key: string)
    requires KeyPart(s, p, key)
    ensures StringAt(s, p, key)
  {
  }

  lemma EntryQuote(s: string, p: nat, e: Entry)
    requires EntryAt(s, p, e)
    ensures p < |s| && s[p] == '"'
  {
  }

  lemma LastSeparator(s: string, q: nat)
    requires q < |s| && s[q] == '}'
    ensures ParseRest(s, q) == []
  {
    SkipIs(s, SEPARATORS, q, q);
  }

  lemma NextSeparator(s: string, q: nat)
    requires q + 2 < |s| && s[q] == ',' && s[q + 1] == ' ' && s[q + 2] == '"'
    ensures ParseRest(s, q) == ParseFields(s, q + 2)
  {
    hide ParseFields;
    SkipIs(s, SEPARATORS, q, q + 2);
  }

  lemma {:induction false} ParseList(s: string, p: nat, es: seq<Entry>)
    requires ListAt(s, p, es) && WellFormed(es)
    ensures ParseFields(s, p) == Erase(es)
    decreases |es|
  {
    hide Find, Skip, ParseFields, ParseRest, EntryAt, EntryEnd, IsIdentifier, WellFormedValue, Erased;
    var q := EntryEnd(p, es[0]);
    ParseEntry(s, p, es[0]);
    if |es| == 1 {
      LastSeparator(s, q);
    } else {
      EntryQuote(s, q + 2, es[1]);
      NextSeparator(s, q);
      ParseList(s, q + 2, es[1..]);
    }
  }

  /** parse_json_properties inverts the printer up to the types of the values. */
  lemma ParsePrint(es: seq<Entry>)
    requires WellFormed(es)
    ensures Parse(Print(es)) == Erase(es)
  {
    var s := Print(es);
    if es == [] {
      FindIs(s, QUOTE, 1, 2);
    } else {
      PrintStands(es);
      ParseList(s, 1, es);
    }
  }

  // ---- get ----

  /** Reading the value that follows the colon of the entry at p. */
  lemma ReadEntry(s: string, p: nat, e: Entry, from: nat)
    requires EntryAt(s, p, e) && WellFormedEntry(e)
    requires EntryEnds(s, EntryEnd(p, e))
    requires from <= p + |e.key| + 2 && forall i :: from <= i < p + |e.key| + 2 ==> s[i] != ':'
    ensures ValueAfterKey(s, from) == Erased(e.value)
  {
    hide EntryAt, WellFormedEntry, EntryEnds, KeyPart, ValueSearch, ValueAfterKey;
    EntrySearch(s, p, e);
    ReadValue(s, p, e.key, from, e.value, EntryEnd(p, e));
  }

  lemma ReadValue(s: string, p: nat, key: string, from: nat, value: Value, end: nat)
    requires KeyPart(s, p, key) && ValueSearch(s, p + |key| + 4, value, end)
    requires from <= p + |key| + 2 && forall i :: from <= i < p + |key| + 2 ==> s[i] != ':'
    ensures from <= |s| && ValueAfterKey(s, from) == Erased(value)
  {
    hide KeyPart, Find, Skip;
    KeySearch(s, p, key, from);
  }

  lemma KeyAtIs(s: string, p: nat, text: string, k: string)
    requires Stands(s, p, text) && p + |text| < |s| && s[p + |text|] == '"'
    requires forall i :: 0 <= i < |text| ==> text[i] != '"'
    requires IsIdentifier(k)
    ensures KeyAt(s, k, p) <==> text == k
  {
    if |k| == |text| {
      StandsSlice(s, p, text);
    } else if |k| < |text| {
      assert s[p + |k|] == text[|k|];
    } else {
      assert IsIdentifierChar(k[|text|]);
      assert p + |k| <= |s| ==> s[p..p + |k|][|text|] == s[p + |text|];
    }
  }

  /** Text without quotes makes no difference to the search. */
  lemma GetFromSkips(s: string, k: string, a: nat, b: nat)
    requires a <= b <= |s| && forall i :: a <= i < b ==> s[i] != '"'
    ensures GetFrom(s, k, a) == GetFrom(s, k, b)
  {
    hide Find, KeyAt, ValueAfterKey;
    var n := Find(s, QUOTE, b);
    FindPrefix(s, QUOTE, a, b);
  }

  lemma {:induction false} FindPrefix(s: string, cs: Chars, a: nat, b: nat)
    requires a <= b <= |s| && forall i :: a <= i < b ==> !Has(cs, s[i])
    ensures Find(s, cs, a) == Find(s, cs, b)
    decreases b - a
  {
    if a < b { FindPrefix(s, cs, a + 1, b); }
  }

  /** A quoted text is either taken for the key or passed over. */
  lemma GetQuoted(s: string, k: string, p: nat, text: string)
    requires StringAt(s, p, text) && IsIdentifier(k)
    ensures GetFrom(s, k, p) ==
            if text == k then ValueAfterKey(s, p + |text| + 2) else GetFrom(s, k, p + |text| + 2)
  {
    hide Find, ValueAfterKey, KeyAt;
    FindIs(s, QUOTE, p, p);
    FindIs(s, QUOTE, p + 1, p + 1 + |text|);
    forall i | 0 <= i < |text| ensures text[i] != '"' { assert s[p + 1 + i] == text[i]; }
    KeyAtIs(s, p + 1, text, k);
  }

  lemma GetEntry(s: string, p: nat, e: Entry, k: string)
    requires EntryAt(s, p, e) && WellFormedEntry(e) && IsIdentifier(k)
    requires EntryEnds(s, EntryEnd(p, e))
    ensures GetFrom(s, k, p) ==
            if e.key == k then Erased(e.value)
            else if e.value == Str(k) then ValueAfterKey(s, EntryEnd(p, e))
            else GetFrom(s, k, EntryEnd(p, e))
  {
    hide GetFrom, ValueAfterKey, EntryAt, StringAt, NumberAt, KeyPart, WellFormedEntry, IsIdentifier, EntryEnds;
    EntryParts(s, p, e);
    KeyIsString(s, p, e.key);
    PlainBetween(s, p, e);
    GetQuoted(s, k, p, e.key);
    if e.key == k {
      ReadEntry(s, p, e, p + |e.key| + 2);
    } else if e.value.Str? {
      GetFromSkips(s, k, p + |e.key| + 2, ValueAt(p, e));
      GetQuoted(s, k, ValueAt(p, e), e.value.text);
    } else {
      GetFromSkips(s, k, p + |e.key| + 2, EntryEnd(p, e));
    }
  }

  /** Between the key and a string value, or up to the end of a number, there is no quote. */
  lemma PlainBetween(s: string, p: nat, e: Entry)
    requires EntryAt(s, p, e) && WellFormedEntry(e)
    ensures p + |e.key| + 4 == ValueAt(p, e) <= EntryEnd(p, e) <= |s|
    ensures var end := if e.value.Str? then ValueAt(p, e) else EntryEnd(p, e);
      forall i :: p + |e.key| + 2 <= i < end ==> s[i] != '"'
  {
    EntryParts(s, p, e);
    hide WellFormedEntry, StringAt, Stands, Printed;
    if e.value.Num? {
      forall i | ValueAt(p, e) <= i < EntryEnd(p, e) ensures s[i] != '"' { assert IsNumberChar(s[i]); }
    }
  }

  /** A string value taken for the key leads to the next entry's value. */
  lemma GetNext(s: string, p: nat, es: seq<Entry>, from: nat)
    requires ListAt(s, p, es) && WellFormed(es) && from == EntryEnd(p, es[0])
    ensures ValueAfterKey(s, from) == if |es| > 1 then Erased(es[1].value) else ""
  {
    hide EntryAt, ValueAfterKey, WellFormedEntry;
    if |es| == 1 {
      NoColonLeft(s, from);
    } else {
      assert es[1..][0] == es[1];
      var p1 := from + 2;
      assert EntryEnds(s, EntryEnd(p1, es[1])) by { NextEnds(s, p1, es[1..]); }
      NoColonInKey(s, p1, es[1], from);
      ReadEntry(s, p1, es[1], from);
    }
  }

  lemma NextEnds(s: string, p: nat, es: seq<Entry>)
    requires ListAt(s, p, es)
    ensures EntryAt(s, p, es[0]) && EntryEnds(s, EntryEnd(p, es[0]))
  {
    hide EntryAt;
  }

  lemma NoColonLeft(s: string, q: nat)
    requires q + 1 == |s| && s[q] == '}'
    ensures Find(s, COLON, q) == |s| && ValueAfterKey(s, q) == ""
  {
    FindIs(s, COLON, q, |s|);
  }

  lemma NoColonInKey(s: string, p: nat, e: Entry, from: nat)
    requires EntryAt(s, p, e) && WellFormedEntry(e) && from <= p
    requires forall i :: from <= i < p ==> s[i] != ':'
    ensures forall i :: from <= i < p + |e.key| + 2 ==> s[i] != ':'
  {
    hide EntryAt, StringAt;
    EntryParts(s, p, e);
  }

  lemma {:induction false} GetList(s: string, p: nat, es: seq<Entry>, k: string)
    requires ListAt(s, p, es) && WellFormed(es) && IsIdentifier(k)
    ensures GetFrom(s, k, p) == ReadPicked(es, k)
    decreases |es|
  {
    hide GetFrom, ValueAfterKey, EntryAt;
    var q := EntryEnd(p, es[0]);
    GetEntry(s, p, es[0], k);
    if es[0].key != k && es[0].value == Str(k) {
      GetNext(s, p, es, q);
    } else if es[0].key != k {
      if |es| == 1 {
        NoQuoteLeft(s, k, q);
      } else {
        GetFromSkips(s, k, q, q + 2);
        GetList(s, q + 2, es[1..], k);
        assert FirstShowing(es, k) == 1 + FirstShowing(es[1..], k);
      }
    }
  }

  lemma NoQuoteLeft(s: string, k: string, q: nat)
    requires q <= |s| && forall i :: q <= i < |s| ==> s[i] != '"'
    ensures GetFrom(s, k, q) == ""
  {
    FindIs(s, QUOTE, q, |s|);
  }

  /** get_json_value on any printed text, for any key. */
  lemma GetPrint(es: seq<Entry>, k: string)
    requires WellFormed(es) && IsIdentifier(k)
    ensures GetValue(Print(es), k) == ReadPicked(es, k)
  {
    hide GetFrom, Print, ListAt, WellFormed, IsIdentifier;
    var s := Print(es);
    PrintBraces(es);
    if es == [] {
      NoQuoteLeft(s, k, 0);
    } else {
      PrintStands(es);
      GetFromSkips(s, k, 0, 1);
      GetList(s, 1, es, k);
    }
  }

  // ---- update ----

  /** A quote followed by something that is not the key's first character starts no match. */
  lemma NoMatch(s: string, i: nat, k: string)
    requires IsIdentifier(k) && i < |s|
    requires s[i] != '"' || i + 1 == |s| || !IsIdentifierChar(s[i + 1])
    ensures !At(s, i, Quoted(k))
  {
    var pattern := Quoted(k);
    assert pattern[0] == '"' && pattern[1] == k[0] && IsIdentifierChar(k[0]);
    if i + |pattern| <= |s| {
      var seen := s[i..i + |pattern|];
      assert seen[0] == s[i] && seen[1] == s[i + 1];
    }
  }

  lemma AtStands(s: string, p: nat, t: string)
    ensures At(s, p, t) <==> Stands(s, p, t)
  {
    if At(s, p, t) {
      var seen := s[p..p + |t|];
      assert forall i :: 0 <= i < |t| ==> seen[i] == s[p + i];
    }
  }

  lemma QuotedMatch(s: string, p: nat, text: string, k: string)
    requires StringAt(s, p, text) && IsIdentifier(k)
    ensures At(s, p, Quoted(k)) <==> text == k
  {
    forall i | 0 <= i < |text| ensures text[i] != '"' { assert s[p + 1 + i] == text[i]; }
    KeyAtIs(s, p + 1, text, k);
    AtStands(s, p, Quoted(k));
    var pattern := "\"" + (k + "\"");
    assert Quoted(k) == pattern;
    if text == k {
      forall i | 0 <= i < |pattern| ensures s[p + i] == pattern[i] {
        if 0 < i <= |k| { assert s[p + 1 + (i - 1)] == k[i - 1]; }
      }
    }
    if Stands(s, p, pattern) {
      StandsParts(s, p, "\"", k + "\"");
      StandsParts(s, p + 1, k, "\"");
      StandsSlice(s, p + 1, k);
      StandsFirst(s, p + 1 + |k|, "\"");
    }
  }

  lemma {:induction false} FindTextSkips(s: string, pattern: string, a: nat, b: nat)
    requires pattern != "" && a <= b <= |s| && forall i :: a <= i < b ==> !At(s, i, pattern)
    ensures FindText(s, pattern, a) == FindText(s, pattern, b)
    decreases b - a
  {
    if a < b { FindTextSkips(s, pattern, a + 1, b); }
  }

  lemma FindTextQuoted(s: string, p: nat, text: string, k: string)
    requires StringAt(s, p, text) && IsIdentifier(k)
    requires p + |text| + 2 < |s| && !IsIdentifierChar(s[p + |text| + 2])
    ensures FindText(s, Quoted(k), p) == if text == k then p else FindText(s, Quoted(k), p + |text| + 2)
  {
    QuotedMatch(s, p, text, k);
    if text != k {
      forall i | p <= i < p + |text| + 2 ensures !At(s, i, Quoted(k)) {
        if i > p { NoMatch(s, i, k); }
      }
      FindTextSkips(s, Quoted(k), p, p + |text| + 2);
    }
  }

  lemma FindTextPlain(s: string, k: string, a: nat, b: nat)
    requires IsIdentifier(k) && a <= b <= |s| && forall i :: a <= i < b ==> s[i] != '"'
    ensures FindText(s, Quoted(k), a) == FindText(s, Quoted(k), b)
  {
    forall i | a <= i < b ensures !At(s, i, Quoted(k)) { NoMatch(s, i, k); }
    FindTextSkips(s, Quoted(k), a, b);
  }

  lemma FindTextEntry(s: string, p: nat, e: Entry, k: string)
    requires EntryAt(s, p, e) && WellFormedEntry(e) && IsIdentifier(k)
    requires EntryEnds(s, EntryEnd(p, e))
    ensures FindText(s, Quoted(k), p) ==
            if e.key == k then p
            else if e.value == Str(k) then ValueAt(p, e)
            else FindText(s, Quoted(k), EntryEnd(p, e))
  {
    hide FindText, EntryAt, StringAt, NumberAt, KeyPart, WellFormedEntry, IsIdentifier, IsIdentifierChar, EntryEnds, Quoted;
    EntryParts(s, p, e);
    KeyIsString(s, p, e.key);
    PlainBetween(s, p, e);
    EndsPlain(s, p, e);
    FindTextQuoted(s, p, e.key, k);
    if e.value.Str? {
      FindTextPlain(s, k, p + |e.key| + 2, ValueAt(p, e));
      FindTextQuoted(s, ValueAt(p, e), e.value.text, k);
    } else {
      FindTextPlain(s, k, p + |e.key| + 2, EntryEnd(p, e));
    }
  }

  lemma EndsPlain(s: string, p: nat, e: Entry)
    requires EntryAt(s, p, e) && EntryEnds(s, EntryEnd(p, e))
    ensures EntryEnd(p, e) < |s| && !IsIdentifierChar(s[EntryEnd(p, e)])
    ensures p + |e.key| + 2 < |s| && !IsIdentifierChar(s[p + |e.key| + 2])
  {
    hide Stands, Printed;
  }

  /** Overwriting from anywhere before the colon of the entry at p replaces exactly its value. */
  lemma ReplaceEntry(s: string, p: nat, e: Entry, from: nat, newValue: string)
    requires EntryAt(s, p, e) && WellFormedEntry(e) && EntryEnds(s, EntryEnd(p, e))
    requires from <= p + |e.key| + 2 && forall i :: from <= i < p + |e.key| + 2 ==> s[i] != ':'
    ensures ReplaceValue(s, from, newValue)
         == Some(s[..ValueAt(p, e)] + newValue + s[EntryEnd(p, e)..])
  {
    hide EntryAt, WellFormedEntry, EntryEnds, KeyPart, ValueSearch, ReplaceValue;
    EntrySearch(s, p, e);
    ReplaceFound(s, p, e.key, from, e.value, EntryEnd(p, e), newValue);
  }

  lemma ReplaceFound(s: string, p: nat, key: string, from: nat, value: Value, end: nat, newValue: string)
    requires KeyPart(s, p, key) && ValueSearch(s, p + |key| + 4, value, end)
    requires from <= p + |key| + 2 && forall i :: from <= i < p + |key| + 2 ==> s[i] != ':'
    ensures from <= |s| && p + |key| + 4 <= end <= |s|
    ensures ReplaceValue(s, from, newValue) == Some(s[..p + |key| + 4] + newValue + s[end..])
  {
    hide KeyPart, Find, Skip;
    KeySearch(s, p, key, from);
  }

  lemma SpliceEntry(s: string, a: string, e: Entry, b: string, v: Value)
    requires s == a + (PrintEntry(e) + b)
    ensures s[..ValueAt(|a|, e)] + Printed(v) + s[EntryEnd(|a|, e)..]
         == a + (PrintEntry(Entry(e.key, v)) + b)
  {
    var head := a + ("\"" + (e.key + "\": "));
    assert s == head + Printed(e.value) + b;
    assert a + (PrintEntry(Entry(e.key, v)) + b) == head + Printed(v) + b;
  }

  /** What stands after the first entry's value. */
  function After(es: seq<Entry>): string
    requires es != []
  {
    if |es| == 1 then "}" else ", " + (PrintList(es[1..]) + "}")
  }

  lemma ListText(es: seq<Entry>)
    requires es != []
    ensures PrintList(es) + "}" == PrintEntry(es[0]) + After(es)
  {
    if |es| > 1 { assert PrintList(es) + "}" == PrintEntry(es[0]) + ", " + PrintList(es[1..]) + "}"; }
  }

  lemma ListStandsAfter(a: string, es: seq<Entry>)
    requires es != []
    ensures ListAt(a + (PrintList(es) + "}"), |a|, es)
  {
    var s := a + (PrintList(es) + "}");
    assert Stands(s, 0, s);
    StandsParts(s, 0, a, PrintList(es) + "}");
    ListStands(s, |a|, es);
  }

  /** Replacing the value of the first entry, found from any point before its colon. */
  lemma ReplaceFirst(a: string, es: seq<Entry>, from: nat, v: Value)
    requires es != [] && WellFormed(es)
    requires from <= |a| + |es[0].key| + 2 <= |a + (PrintList(es) + "}")|
    requires forall i :: from <= i < |a| + |es[0].key| + 2 ==> (a + (PrintList(es) + "}"))[i] != ':'
    ensures ReplaceValue(a + (PrintList(es) + "}"), from, Printed(v))
         == Some(a + (PrintList(es[0 := Entry(es[0].key, v)]) + "}"))
  {
    hide Find, Skip, ReplaceValue, PrintEntry, Printed;
    var s := a + (PrintList(es) + "}");
    ListStandsAfter(a, es);
    ListText(es);
    ReplaceEntry(s, |a|, es[0], from, Printed(v));
    SpliceEntry(s, a, es[0], After(es), v);
    var es' := es[0 := Entry(es[0].key, v)];
    ListText(es');
    assert es'[1..] == es[1..];
  }

  predicate UpdatesTo(s: string, from: nat, k: string, v: Value, found: bool, result: string) {
    from <= |s| &&
    var at := FindText(s, Quoted(k), from);
    if found then at < |s| && ReplaceValue(s, at + |k| + 2, Printed(v)) == Some(result) else at == |s|
  }

  lemma {:induction false} UpdateList(a: string, es: seq<Entry>, k: string, v: Value)
    requires es != [] && WellFormed(es) && IsIdentifier(k)
    ensures UpdatesTo(a + (PrintList(es) + "}"), |a|, k, v, FirstShowing(es, k) < |es|,
                      a + (PrintList(UpdatePicked(es, k, v)) + "}"))
    decreases |es|
  {
    hide Find, FindText, ReplaceValue, PrintEntry, Printed, PrintList, EntryAt, Quoted;
    var s := a + (PrintList(es) + "}");
    var e, q := es[0], EntryEnd(|a|, es[0]);
    ListStandsAfter(a, es);
    FindTextEntry(s, |a|, e, k);
    if e.key == k {
      ReplaceFirst(a, es, |a| + |k| + 2, v);
    } else if e.value == Str(k) {
      EntryLength(|a|, e);
      UpdateShadowed(a, es, k, v);
    } else if |es| == 1 {
      NoTextLeft(s, k, q);
    } else {
      hide UpdatesTo, UpdatePicked, FirstShowing;
      UpdateList(a + (PrintEntry(e) + ", "), es[1..], k, v);
      UpdateInTail(a, es, k, v);
    }
  }

  lemma UpdateInTail(a: string, es: seq<Entry>, k: string, v: Value)
    requires |es| > 1 && WellFormed(es) && IsIdentifier(k) && es[0].key != k && es[0].value != Str(k)
    requires var a' := a + (PrintEntry(es[0]) + ", ");
      UpdatesTo(a' + (PrintList(es[1..]) + "}"), |a'|, k, v, FirstShowing(es[1..], k) < |es[1..]|,
                a' + (PrintList(UpdatePicked(es[1..], k, v)) + "}"))
    ensures UpdatesTo(a + (PrintList(es) + "}"), |a|, k, v, FirstShowing(es, k) < |es|,
                      a + (PrintList(UpdatePicked(es, k, v)) + "}"))
  {
    hide FindText, PrintEntry, Printed, PrintList, EntryAt, Quoted, UpdatePicked, FirstShowing, UpdatesTo,
      WellFormedEntry, IsIdentifier;
    var s := a + (PrintList(es) + "}");
    var q := EntryEnd(|a|, es[0]);
    ListStandsAfter(a, es);
    FindTextEntry(s, |a|, es[0], k);
    FindTextPlain(s, k, q, q + 2);
    EntryLength(|a|, es[0]);
    PickedInTail(es, k, v);
    NextText(a, es, es);
    NextText(a, es, UpdatePicked(es, k, v));
    UpdatesSkip(s, |a|, q + 2, k, v, FirstShowing(es, k) < |es|, a + (PrintList(UpdatePicked(es, k, v)) + "}"));
  }

  lemma UpdatesSkip(s: string, from: nat, to: nat, k: string, v: Value, found: bool, result: string)
    requires from <= to && UpdatesTo(s, to, k, v, found, result)
    requires FindText(s, Quoted(k), from) == FindText(s, Quoted(k), to)
    ensures UpdatesTo(s, from, k, v, found, result)
  {
    hide FindText, Quoted;
  }

  /** The first entry's string value was taken for the key: the next entry changes, if there is one. */
  lemma UpdateShadowed(a: string, es: seq<Entry>, k: string, v: Value)
    requires es != [] && WellFormed(es) && es[0].key != k && es[0].value == Str(k)
    ensures EntryEnd(|a|, es[0]) <= |a + (PrintList(es) + "}")|
    ensures ReplaceValue(a + (PrintList(es) + "}"), EntryEnd(|a|, es[0]), Printed(v))
         == Some(a + (PrintList(UpdatePicked(es, k, v)) + "}"))
  {
    hide Find, FindText, ReplaceValue, PrintEntry, Printed, PrintList, EntryAt, Quoted;
    var s := a + (PrintList(es) + "}");
    var q := EntryEnd(|a|, es[0]);
    ListStandsAfter(a, es);
    if |es| == 1 {
      ReplaceNothing(s, q, Printed(v));
    } else {
      EntryLength(|a|, es[0]);
      NextText(a, es, es);
      NoColonInKey(s, q + 2, es[1], q);
      ReplaceFirst(a + (PrintEntry(es[0]) + ", "), es[1..], q, v);
      var es' := es[1 := Entry(es[1].key, v)];
      NextText(a, es, es');
      assert es'[1..] == es[1..][0 := Entry(es[1].key, v)];
    }
  }

  lemma EntryLength(p: nat, e: Entry)
    ensures EntryEnd(p, e) == p + |PrintEntry(e)|
    ensures e.value.Str? ==> EntryEnd(p, e) == ValueAt(p, e) + |e.value.text| + 2
  {
  }

  lemma PickedInTail(es: seq<Entry>, k: string, v: Value)
    requires es != [] && es[0].key != k && es[0].value != Str(k)
    ensures FirstShowing(es, k) == 1 + FirstShowing(es[1..], k)
    ensures Picked(es, k) == 1 + Picked(es[1..], k)
    ensures UpdatePicked(es, k, v) == [es[0]] + UpdatePicked(es[1..], k, v)
    ensures UpdatePicked(es, k, v)[1..] == UpdatePicked(es[1..], k, v)
    ensures |UpdatePicked(es, k, v)| >= |es|
  {
    hide UpdatePicked;
    assert FirstShowing(es, k) == 1 + FirstShowing(es[1..], k);
    assert Picked(es, k) == 1 + Picked(es[1..], k) by { hide FirstShowing; }
    UpdatedInTail(es, k, v);
  }

  lemma UpdatedInTail(es: seq<Entry>, k: string, v: Value)
    requires es != [] && FirstShowing(es, k) == 1 + FirstShowing(es[1..], k) && Picked(es, k) == 1 + Picked(es[1..], k)
    ensures UpdatePicked(es, k, v) == [es[0]] + UpdatePicked(es[1..], k, v) && |UpdatePicked(es, k, v)| >= |es|
  {
    hide FirstShowing, Picked;
    ConsUpdate(es, Picked(es[1..], k), Entry(k, v), v);
  }

  lemma ConsUpdate(es: seq<Entry>, i: nat, last: Entry, v: Value)
    requires es != []
    ensures es + [last] == [es[0]] + (es[1..] + [last])
    ensures i + 1 < |es| ==>
      es[i + 1 := Entry(es[i + 1].key, v)] == [es[0]] + es[1..][i := Entry(es[1..][i].key, v)]
    ensures es == [es[0]] + es[1..]
  {
  }

  /** The text seen from its second entry on. */
  lemma NextText(a: string, es: seq<Entry>, es': seq<Entry>)
    requires |es| > 1 && |es'| > 1 && es'[0] == es[0]
    ensures a + (PrintList(es') + "}") == a + (PrintEntry(es[0]) + ", ") + (PrintList(es'[1..]) + "}")
  {
    hide PrintEntry, PrintList;
    ListText(es');
    Regroup(a, PrintEntry(es[0]), ", ", PrintList(es'[1..]) + "}");
  }

  lemma Regroup(a: string, b: string, c: string, d: string)
    ensures a + (b + (c + d)) == a + (b + c) + d
  {
  }

  lemma ReplaceNothing(s: string, q: nat, newValue: string)
    requires q + 1 == |s| && s[q] == '}'
    ensures ReplaceValue(s, q, newValue) == Some(s)
  {
    NoColonLeft(s, q);
  }

  lemma NoTextLeft(s: string, k: string, q: nat)
    requires IsIdentifier(k) && q <= |s| && forall i :: q <= i < |s| ==> s[i] != '"'
    ensures FindText(s, Quoted(k), q) == |s|
  {
    FindTextPlain(s, k, q, |s|);
  }

  lemma {:induction false} PrintListAppend(es: seq<Entry>, e: Entry)
    requires es != []
    ensures PrintList(es + [e]) == PrintList(es) + ", " + PrintEntry(e)
    decreases |es|
  {
    hide PrintEntry;
    if |es| == 1 {
      assert (es + [e])[1..] == [e];
    } else {
      assert (es + [e])[1..] == es[1..] + [e];
      PrintListAppend(es[1..], e);
    }
  }

  lemma EntryLastChar(s: string, p: nat, e: Entry)
    requires EntryAt(s, p, e) && WellFormedEntry(e)
    ensures p + 3 < EntryEnd(p, e) <= |s| && s[EntryEnd(p, e) - 1] != '{'
  {
    EntryParts(s, p, e);
    if e.value.Num? { assert IsNumberChar(s[EntryEnd(p, e) - 1]); }
  }

  lemma {:induction false} ListEnd(s: string, p: nat, es: seq<Entry>)
    requires ListAt(s, p, es) && WellFormed(es)
    ensures |s| >= p + 3 && s[|s| - 1] == '}' && s[|s| - 2] != '{'
    decreases |es|
  {
    hide EntryAt, WellFormedEntry;
    if |es| == 1 {
      EntryLastChar(s, p, es[0]);
    } else {
      ListEnd(s, EntryEnd(p, es[0]) + 2, es[1..]);
    }
  }

  lemma AppendPrint(es: seq<Entry>, k: string, v: Value)
    requires WellFormed(es)
    ensures AppendProperty(Print(es), k, Printed(v)) == Print(es + [Entry(k, v)])
  {
    hide PrintList, Printed, ListAt, LastEnd;
    var s, e := Print(es), Entry(k, v);
    var separator := if es == [] then "" else ", ";
    assert LastEnd(s, '}', |s|) == |s| by { EndsWithBrace(es); }
    if es != [] {
      PrintStands(es);
      ListEnd(s, 1, es);
    }
    assert s[..|s| - 1] == "{" + PrintList(es);
    EmptyList();
    AppendedList(es, e, separator);
    assert PrintEntry(e) == Quoted(k) + ": " + Printed(v) by { EntryText(e); }
    hide PrintEntry, Quoted;
    AssocFour("{" + PrintList(es) + separator, Quoted(k), ": ", Printed(v));
  }

  lemma AppendedList(es: seq<Entry>, e: Entry, separator: string)
    requires separator == if es == [] then "" else ", "
    ensures "{" + PrintList(es + [e]) == "{" + PrintList(es) + separator + PrintEntry(e)
  {
    hide PrintList, PrintEntry;
    EmptyList();
    if es == [] {
      assert es + [e] == [e];
    } else {
      PrintListAppend(es, e);
    }
  }

  lemma EntryText(e: Entry)
    ensures PrintEntry(e) == Quoted(e.key) + ": " + Printed(e.value)
  {
  }

  lemma AssocFour(a: string, b: string, c: string, d: string)
    ensures a + b + c + d + "}" == a + (b + c + d) + "}"
  {
  }

  lemma EndsWithBrace(es: seq<Entry>)
    ensures LastEnd(Print(es), '}', |Print(es)|) == |Print(es)|
  {
  }

  /** update_json_property on any printed text, character for character: it never throws, and what
      it writes is again a printed text. */
  lemma UpdatePrint(es: seq<Entry>, k: string, v: Value)
    requires WellFormed(es) && IsIdentifier(k)
    ensures Update(Print(es), k, Erased(v), v.Str?) == Some(Print(UpdatePicked(es, k, v)))
  {
    hide FindText, ReplaceValue, PrintList, AppendProperty;
    var s := Print(es);
    if es == [] {
      assert PrintList(es) == "" by { EmptyList(); }
      NoTextLeft(s, k, 0);
    } else {
      assert s == "{" + (PrintList(es) + "}");
      FindTextPlain(s, k, 0, 1);
      UpdateList("{", es, k, v);
      var es' := UpdatePicked(es, k, v);
      assert Print(es') == "{" + (PrintList(es') + "}");
    }
    AppendPrint(es, k, v);
  }

  lemma PrintIsText(es: seq<Entry>)
    ensures Print(es) != ""
  {
    hide PrintList;
  }

  lemma EmptyList()
    ensures PrintList([]) == ""
    ensures forall e :: PrintList([e]) == PrintEntry(e)
  {
  }

  // ---- when the helpers do what they are for ----

  /** The value stored under k, None if there is none. */
  function Lookup(es: seq<Entry>, k: string): (r: Option<Value>) {
    if es == [] then None else if es[0].key == k then Some(es[0].value) else Lookup(es[1..], k)
  }

  /** k replaced where it is, or appended. */
  function Assigned(es: seq<Entry>, k: string, v: Value): seq<Entry> {
    if es == [] then [Entry(k, v)]
    else if es[0].key == k then [Entry(k, v)] + es[1..]
    else [es[0]] + Assigned(es[1..], k, v)
  }

  /** No string value is mistaken for the key, because the first entry that shows k has it as its key,
      or the mistake does no harm, because the entry after it is the key's own. */
  predicate KeyFound(es: seq<Entry>, k: string) {
    var i, picked := FirstShowing(es, k), Picked(es, k);
    i == |es| || es[i].key == k || (picked < |es| && es[picked].key == k)
  }

  lemma {:induction false} FoundPick(es: seq<Entry>, k: string, v: Value)
    requires KeyFound(es, k)
    ensures ReadPicked(es, k) == match Lookup(es, k) case None => "" case Some(w) => Erased(w)
    ensures UpdatePicked(es, k, v) == Assigned(es, k, v)
  {
    if es != [] && es[0].key != k && es[0].value != Str(k) {
      PickedInTail(es, k, v);
      assert KeyFound(es[1..], k) by { FoundInTail(es, k); }
      hide FirstShowing, UpdatePicked, KeyFound, Picked;
      FoundPick(es[1..], k, v);
    } else if es != [] && es[0].key != k {
      HarmlessMistake(es, k, v);
    }
  }

  lemma FoundInTail(es: seq<Entry>, k: string)
    requires KeyFound(es, k) && es != [] && es[0].key != k && es[0].value != Str(k)
    ensures KeyFound(es[1..], k)
  {
    assert FirstShowing(es, k) == 1 + FirstShowing(es[1..], k);
  }

  /** The value before the key's own entry is mistaken for the key. */
  lemma HarmlessMistake(es: seq<Entry>, k: string, v: Value)
    requires KeyFound(es, k) && es != [] && es[0].key != k && es[0].value == Str(k)
    ensures ReadPicked(es, k) == match Lookup(es, k) case None => "" case Some(w) => Erased(w)
    ensures UpdatePicked(es, k, v) == Assigned(es, k, v)
  {
    assert FirstShowing(es, k) == 0 && es[1].key == k;
    hide FirstShowing;
    var tail := es[1..];
    assert tail[0] == es[1] && Lookup(tail, k) == Some(es[1].value);
    assert Assigned(tail, k, v) == [Entry(k, v)] + tail[1..];
    assert es[1 := Entry(k, v)] == [es[0]] + ([Entry(k, v)] + tail[1..]);
  }

  /** Up to the first entry of the key an assignment changes nothing, and it appends if there is none. */
  lemma {:induction false} AssignedBefore(es: seq<Entry>, k: string, v: Value, n: nat)
    requires n <= |es| && forall j :: 0 <= j < n ==> es[j].key != k
    ensures |Assigned(es, k, v)| >= |es| && Assigned(es, k, v)[..n] == es[..n]
    ensures n == |es| ==> |Assigned(es, k, v)| == |es| + 1
  {
    if n > 0 {
      AssignedBefore(es[1..], k, v, n - 1);
      var r := Assigned(es[1..], k, v);
      assert Assigned(es, k, v) == [es[0]] + r && es[..n] == [es[0]] + es[1..][..n - 1];
      assert ([es[0]] + r)[..n] == [es[0]] + r[..n - 1];
    } else if es != [] && es[0].key != k {
      AssignedBefore(es[1..], k, v, 0);
    }
  }

  lemma {:induction false} AssignedWellFormed(es: seq<Entry>, k: string, v: Value)
    requires WellFormed(es) && IsIdentifier(k) && WellFormedValue(v)
    ensures WellFormed(Assigned(es, k, v))
  {
    hide IsIdentifier, WellFormedValue;
    if es != [] && es[0].key != k { AssignedWellFormed(es[1..], k, v); }
  }

  /** Where the key is not found, assigning a new value to it writes it elsewhere or nowhere. */
  lemma NotFoundGoesWrong(es: seq<Entry>, k: string, v: Value)
    requires !KeyFound(es, k) && (Picked(es, k) < |es| ==> Erased(v) != Erased(es[Picked(es, k)].value))
    ensures Erase(UpdatePicked(es, k, v)) != Erase(Assigned(es, k, v))
  {
    var i := FirstShowing(es, k);
    var a, b := UpdatePicked(es, k, v), Assigned(es, k, v);
    if i + 1 == |es| {
      AssignedBefore(es, k, v, i + 1);
      assert |Erase(a)| != |Erase(b)|;
    } else {
      AssignedBefore(es, k, v, i + 2);
      assert b[i + 1] == b[..i + 2][i + 1] == es[..i + 2][i + 1] == es[i + 1];
      assert Erase(a)[i + 1] != Erase(b)[i + 1];
    }
  }

  /** The law update_json_property is meant to obey, on every printed text: it assigns, whatever the new
      value is, if and only if the key is found. The lookup then reads what is stored. */
  lemma HelpersCommuteWithPrinterIff(es: seq<Entry>, k: string)
    requires WellFormed(es) && IsIdentifier(k)
    ensures KeyFound(es, k) <==>
      forall v :: WellFormedValue(v) ==> Update(Print(es), k, Erased(v), v.Str?) == Some(Print(Assigned(es, k, v)))
    ensures KeyFound(es, k) ==>
      GetValue(Print(es), k) == match Lookup(es, k) case None => "" case Some(w) => Erased(w)
  {
    hide KeyFound, Picked, UpdatePicked, Assigned, Print, Update, IsIdentifier, WellFormed, ReadPicked, WellFormedValue,
      GetValue, Erase, Parse;
    GetPrint(es, k);
    if KeyFound(es, k) {
      FoundPick(es, k, Num("0"));
      forall v | WellFormedValue(v) ensures Update(Print(es), k, Erased(v), v.Str?) == Some(Print(Assigned(es, k, v))) {
        UpdatePrint(es, k, v);
        FoundPick(es, k, v);
      }
    } else {
      var v := OtherNumber(es, k);
      UpdatePrint(es, k, v);
      NotFoundGoesWrong(es, k, v);
      AssignedWellFormed(es, k, v);
      PickedWellFormed(es, k, v);
      ParsePrint(UpdatePicked(es, k, v));
      ParsePrint(Assigned(es, k, v));
      assert Print(UpdatePicked(es, k, v)) != Print(Assigned(es, k, v));
    }
  }

  /** A value whose text is not the one the helpers pick. */
  function OtherNumber(es: seq<Entry>, k: string): (v: Value)
    ensures WellFormedValue(v) && (Picked(es, k) < |es| ==> Erased(v) != Erased(es[Picked(es, k)].value))
  {
    if Picked(es, k) < |es| && Erased(es[Picked(es, k)].value) == "0" then Num("1") else Num("0")
  }

  lemma PickedWellFormed(es: seq<Entry>, k: string, v: Value)
    requires WellFormed(es) && IsIdentifier(k) && WellFormedValue(v)
    ensures WellFormed(UpdatePicked(es, k, v))
  {
    hide IsIdentifier, WellFormedValue;
  }

  /** Where it is not found both laws fail: in {"a": "b", "c": 1} the value "b" is taken for a key,
      so reading b yields c's value and assigning b overwrites c. */
  lemma ShadowedKeyGoesWrong()
    ensures var es := [Entry("a", Str("b")), Entry("c", Num("1"))];
      && WellFormed(es) && DistinctKeys(es) && Lookup(es, "b") == None && !KeyFound(es, "b")
      && GetValue(Print(es), "b") == "1"
      && Update(Print(es), "b", "2", false) == Some(Print([Entry("a", Str("b")), Entry("c", Num("2"))]))
  {
    var es := [Entry("a", Str("b")), Entry("c", Num("1"))];
    assert IsIdentifier("a") && IsIdentifier("b") && IsIdentifier("c");
    GetPrint(es, "b");
    UpdatePrint(es, "b", Num("2"));
    assert FirstShowing(es, "b") == 0;
    assert UpdatePicked(es, "b", Num("2")) == [Entry("a", Str("b")), Entry("c", Num("2"))];
    assert Lookup(es[1..], "b") == None;
  }

  /** Updating keeps a text within the printed ones with distinct keys, shadowed or not. */
  lemma UpdateKeepsShape(es: seq<Entry>, k: string, v: Value)
    requires WellFormed(es) && DistinctKeys(es) && IsIdentifier(k) && WellFormedValue(v)
    ensures WellFormed(UpdatePicked(es, k, v)) && DistinctKeys(UpdatePicked(es, k, v))
  {
  }
}
