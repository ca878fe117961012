/** Reading back what RETURN writes. The reader knows nothing of the printer: it takes a JSON array of
    objects apart at quotes, braces and commas. */
module Answers {
  import opened Bytes
  import opened Json
  import opened JsonLaws

  /** A value as it stands in the answer: a quoted text, a bare token, or a nested object with its braces. */
  datatype Cell = Text(text: string) | Token(text: string) | Object(text: string)

  datatype Column = Column(name: string, cell: Cell)

  datatype Read<T> = Read(value: T, rest: string)

  // ---- the reader ----

  /** How far it is to the first of the stop characters. */
  function Until(s: string, stop: set<char>): (n: nat)
    ensures n <= |s|
  {
    if s == "" || s[0] in stop then 0 else 1 + Until(s[1..], stop)
  }

  /** How far it is to the brace that closes the outermost open one, inclusive. Braces in quotes do not
      count. */
  function Close(s: string, depth: nat, quoted: bool): (n: nat)
    ensures n <= |s|
  {
    if s == "" then 0
    else if quoted then 1 + Close(s[1..], depth, s[0] != '"')
    else if s[0] == '"' then 1 + Close(s[1..], depth, true)
    else if s[0] == '{' then 1 + Close(s[1..], depth + 1, false)
    else if s[0] != '}' then 1 + Close(s[1..], depth, false)
    else if depth <= 1 then 1
    else 1 + Close(s[1..], depth - 1, false)
  }

  /** A quoted text, without its quotes. */
  function ReadQuoted(s: string): (r: Read<string>)
    requires s != ""
    ensures |r.rest| < |s|
  {
    var n := Until(s[1..], {'"'});
    Read(s[1..][..n], if n < |s| - 1 then s[n + 2..] else "")
  }

  function ReadCell(s: string): (r: Read<Cell>)
    ensures |r.rest| <= |s|
  {
    if s != "" && s[0] == '"' then
      Read(Text(ReadQuoted(s).value), ReadQuoted(s).rest)
    else if s != "" && s[0] == '{' then
      Read(Object(s[..Close(s, 0, false)]), s[Close(s, 0, false)..])
    else
      Read(Token(s[..Until(s, {',', '}'})]), s[Until(s, {',', '}'})..])
  }

  /** The columns of an object whose opening brace has been read. */
  function ReadRow(s: string): (r: Read<seq<Column>>)
    ensures |r.rest| <= |s|
    decreases |s|
  {
    if s == "" then Read([], "")
    else if s[0] == '}' then Read([], s[1..])
    else
      var name := ReadQuoted(s);
      if |name.rest| < 2 then Read([], "") else
      var cell := ReadCell(name.rest[2..]);
      var column := Column(name.value, cell.value);
      if cell.rest == "" then Read([column], "")
      else if cell.rest[0] == '}' then Read([column], cell.rest[1..])
      else if |cell.rest| < 2 then Read([column], "")
      else
        var more := ReadRow(cell.rest[2..]);
        Read([column] + more.value, more.rest)
  }

  function ReadRows(s: string): seq<seq<Column>>
    decreases |s|
  {
    if s == "" || s[0] != '{' then [] else
    var row := ReadRow(s[1..]);
    [row.value] + if |row.rest| < 2 then [] else ReadRows(row.rest[2..])
  }

  function ReadAnswer(s: string): seq<seq<Column>> {
    if s == "" then [] else ReadRows(s[1..])
  }

  // ---- the reader on text ----

  lemma {:induction false} UntilIs(t: string, rest: string, stop: set<char>)
    requires (forall i :: 0 <= i < |t| ==> t[i] !in stop) && rest != "" && rest[0] in stop
    ensures Until(t + rest, stop) == |t|
  {
    if t == "" {
      assert t + rest == rest;
    } else {
      assert (t + rest)[1..] == t[1..] + rest;
      UntilIs(t[1..], rest, stop);
    }
  }

  predicate QuoteFree(t: string) {
    forall i :: 0 <= i < |t| ==> t[i] != '"'
  }

  lemma ReadQuotedIs(t: string, rest: string)
    requires QuoteFree(t)
    ensures ReadQuoted(Quoted(t) + rest) == Read(t, rest)
  {
    var s := Quoted(t) + rest;
    assert s[1..] == t + ("\"" + rest);
    UntilIs(t, "\"" + rest, {'"'});
    assert s[1..][..|t|] == t && s[|t| + 2..] == rest;
  }

  /** Scanning the text changes neither the depth nor the quoting. */
  ghost predicate Neutral(t: string) {
    forall rest, depth: nat :: depth >= 1 ==> Close(t + rest, depth, false) == |t| + Close(rest, depth, false)
  }

  predicate NoBraces(t: string) {
    forall i :: 0 <= i < |t| ==> t[i] != '"' && t[i] != '{' && t[i] != '}'
  }

  lemma {:induction false} ClosePlain(t: string, rest: string, depth: nat)
    requires NoBraces(t)
    ensures Close(t + rest, depth, false) == |t| + Close(rest, depth, false)
  {
    if t == "" {
      assert t + rest == rest;
    } else {
      assert (t + rest)[1..] == t[1..] + rest;
      ClosePlain(t[1..], rest, depth);
    }
  }

  lemma {:induction false} CloseQuoted(t: string, rest: string, depth: nat)
    requires QuoteFree(t)
    ensures Close(t + ("\"" + rest), depth, true) == |t| + 1 + Close(rest, depth, false)
  {
    if t == "" {
      assert t + ("\"" + rest) == "\"" + rest && ("\"" + rest)[1..] == rest;
    } else {
      assert (t + ("\"" + rest))[1..] == t[1..] + ("\"" + rest);
      CloseQuoted(t[1..], rest, depth);
    }
  }

  lemma PlainNeutral(t: string)
    requires NoBraces(t)
    ensures Neutral(t)
  {
    forall rest, depth: nat | depth >= 1 ensures Close(t + rest, depth, false) == |t| + Close(rest, depth, false) {
      ClosePlain(t, rest, depth);
    }
  }

  lemma QuotedNeutral(t: string)
    requires QuoteFree(t)
    ensures Neutral(Quoted(t))
  {
    forall rest, depth: nat | depth >= 1
      ensures Close(Quoted(t) + rest, depth, false) == |Quoted(t)| + Close(rest, depth, false)
    {
      CloseQuoted(t, rest, depth);
      assert Quoted(t) + rest == "\"" + (t + ("\"" + rest)) && ("\"" + (t + ("\"" + rest)))[1..] == t + ("\"" + rest);
    }
  }

  lemma NeutralBoth(a: string, b: string)
    requires Neutral(a) && Neutral(b)
    ensures Neutral(a + b)
  {
    forall rest, depth: nat | depth >= 1 ensures Close(a + b + rest, depth, false) == |a + b| + Close(rest, depth, false) {
      assert a + b + rest == a + (b + rest);
    }
  }

  lemma BracedNeutral(t: string)
    requires Neutral(t)
    ensures Neutral("{" + t + "}")
  {
    forall rest, depth: nat | depth >= 1
      ensures Close("{" + t + "}" + rest, depth, false) == |"{" + t + "}"| + Close(rest, depth, false)
    {
      var after := t + ("}" + rest);
      assert "{" + t + "}" + rest == "{" + after && ("{" + after)[1..] == after;
      assert Close(after, depth + 1, false) == |t| + Close("}" + rest, depth + 1, false);
      assert ("}" + rest)[1..] == rest;
    }
  }

  lemma CloseObject(t: string, rest: string)
    requires Neutral(t)
    ensures Close("{" + t + "}" + rest, 0, false) == |t| + 2
  {
    var after := t + ("}" + rest);
    assert "{" + t + "}" + rest == "{" + after && ("{" + after)[1..] == after;
    assert Close(after, 1, false) == |t| + Close("}" + rest, 1, false);
  }

  // ---- cells ----

  function CellText(c: Cell): string {
    match c
    case Text(t) => Quoted(t)
    case Token(t) => t
    case Object(o) => o
  }

  /** The cell can be told from what follows it. */
  ghost predicate Readable(c: Cell) {
    match c
    case Text(t) => QuoteFree(t)
    case Token(t) => t != "" && t[0] != '"' && t[0] != '{' && forall i :: 0 <= i < |t| ==> t[i] != ',' && t[i] != '}'
    case Object(o) => exists t :: Neutral(t) && o == "{" + t + "}"
  }

  predicate Delimited(rest: string) {
    rest != "" && (rest[0] == ',' || rest[0] == '}')
  }

  lemma ReadCellIs(c: Cell, rest: string)
    requires Readable(c) && Delimited(rest)
    ensures ReadCell(CellText(c) + rest) == Read(c, rest)
  {
    hide Neutral, Close, ReadQuoted, Until;
    match c
    case Text(t) =>
      ReadQuotedIs(t, rest);
      assert (Quoted(t) + rest)[0] == '"';
    case Token(t) =>
      UntilIs(t, rest, {',', '}'});
      assert (t + rest)[0] == t[0] && (t + rest)[..|t|] == t && (t + rest)[|t|..] == rest;
    case Object(o) =>
      var t :| Neutral(t) && o == "{" + t + "}";
      CloseObject(t, rest);
      assert (o + rest)[0] == '{' && (o + rest)[..|o|] == o && (o + rest)[|o|..] == rest;
  }

  // ---- rows ----

  /** Parts with commas in between. */
  function Commas(parts: seq<string>): string {
    if parts == [] then "" else if |parts| == 1 then parts[0] else parts[0] + (", " + Commas(parts[1..]))
  }

  lemma {:induction false} CommasMore(parts: seq<string>, last: string)
    ensures Commas(parts + [last]) == if parts == [] then last else Commas(parts) + ", " + last
    decreases |parts|
  {
    if |parts| > 1 {
      CommasMore(parts[1..], last);
      assert (parts + [last])[1..] == parts[1..] + [last];
      assert parts[0] + (", " + (Commas(parts[1..]) + ", " + last)) == parts[0] + (", " + Commas(parts[1..])) + ", " + last;
    } else if |parts| == 1 {
      assert (parts + [last])[1..] == [last];
      assert parts[0] + (", " + last) == parts[0] + ", " + last;
    } else {
      assert parts + [last] == [last];
    }
  }

  function ColumnText(c: Column): string {
    Quoted(c.name) + ": " + CellText(c.cell)
  }

  function ColumnTexts(cs: seq<Column>): (ts: seq<string>)
    ensures |ts| == |cs|
  {
    seq(|cs|, i requires 0 <= i < |cs| => ColumnText(cs[i]))
  }

  function RowText(cs: seq<Column>): string {
    "{" + Commas(ColumnTexts(cs)) + "}"
  }

  ghost predicate ReadableRow(cs: seq<Column>) {
    forall i :: 0 <= i < |cs| ==> QuoteFree(cs[i].name) && Readable(cs[i].cell)
  }

  lemma ColumnParts(c: Column, rest: string)
    ensures ColumnText(c) + rest == Quoted(c.name) + (": " + (CellText(c.cell) + rest))
    ensures (ColumnText(c) + rest)[0] == '"'
    ensures (": " + (CellText(c.cell) + rest))[2..] == CellText(c.cell) + rest
  {
    hide CellText;
  }

  /** Reading a row gives its columns. */
  lemma {:induction false} ReadRowIs(cs: seq<Column>, rest: string)
    requires ReadableRow(cs)
    ensures ReadRow(Commas(ColumnTexts(cs)) + ("}" + rest)) == Read(cs, rest)
    decreases |cs|
  {
    hide Readable, ReadCell, ReadQuoted, ColumnText, CellText, QuoteFree, ReadRow;
    if cs == [] {
      EmptyRow(rest);
    } else if |cs| == 1 {
      assert cs == [cs[0]];
      LastColumn(cs[0], rest);
      assert Commas(ColumnTexts(cs)) == ColumnText(cs[0]);
    } else {
      var more := Commas(ColumnTexts(cs[1..])) + ("}" + rest);
      assert ColumnTexts(cs)[1..] == ColumnTexts(cs[1..]) && cs == [cs[0]] + cs[1..];
      assert Commas(ColumnTexts(cs)) + ("}" + rest) == ColumnText(cs[0]) + (", " + more);
      ReadRowIs(cs[1..], rest);
      FirstColumn(cs[0], more);
    }
  }

  lemma EmptyRow(rest: string)
    ensures ReadRow(Commas(ColumnTexts([])) + ("}" + rest)) == Read([], rest)
  {
    assert Commas(ColumnTexts([])) == "";
    assert "" + ("}" + rest) == "}" + rest && ("}" + rest)[1..] == rest;
  }

  lemma LastColumn(c: Column, rest: string)
    requires QuoteFree(c.name) && Readable(c.cell)
    ensures ReadRow(ColumnText(c) + ("}" + rest)) == Read([c], rest)
  {
    hide Readable, ReadCell, ReadQuoted, ColumnText, CellText, QuoteFree;
    var after := "}" + rest;
    ColumnParts(c, after);
    ReadQuotedIs(c.name, ": " + (CellText(c.cell) + after));
    ReadCellIs(c.cell, after);
    assert after[1..] == rest;
  }

  lemma FirstColumn(c: Column, more: string)
    requires QuoteFree(c.name) && Readable(c.cell)
    ensures ReadRow(ColumnText(c) + (", " + more)) == Read([c] + ReadRow(more).value, ReadRow(more).rest)
  {
    hide Readable, ReadCell, ReadQuoted, ColumnText, CellText, QuoteFree;
    var after := ", " + more;
    ColumnParts(c, after);
    ReadQuotedIs(c.name, ": " + (CellText(c.cell) + after));
    ReadCellIs(c.cell, after);
    assert after[2..] == more;
  }

  function RowTexts(rows: seq<seq<Column>>): (ts: seq<string>)
    ensures |ts| == |rows|
  {
    seq(|rows|, i requires 0 <= i < |rows| => RowText(rows[i]))
  }

  /** Reading an answer gives its rows. */
  lemma {:induction false} ReadRowsIs(rows: seq<seq<Column>>)
    requires forall i :: 0 <= i < |rows| ==> ReadableRow(rows[i])
    ensures ReadRows(Commas(RowTexts(rows)) + "]") == rows
    decreases |rows|
  {
    hide ReadableRow, ReadRow, ColumnTexts;
    if rows == [] {
      assert "" + "]" == "]";
    } else {
      assert RowTexts(rows)[1..] == RowTexts(rows[1..]);
      var after := if |rows| == 1 then "]" else ", " + (Commas(RowTexts(rows[1..])) + "]");
      var columns := Commas(ColumnTexts(rows[0]));
      assert Commas(RowTexts(rows)) + "]" == RowText(rows[0]) + after;
      assert RowText(rows[0]) + after == "{" + (columns + ("}" + after));
      assert ("{" + (columns + ("}" + after)))[1..] == columns + ("}" + after);
      ReadRowIs(rows[0], after);
      if |rows| == 1 {
        assert rows == [rows[0]];
      } else {
        assert after[2..] == Commas(RowTexts(rows[1..])) + "]";
        ReadRowsIs(rows[1..]);
        assert rows == [rows[0]] + rows[1..];
      }
    }
  }

  // ---- printed texts are objects ----

  lemma NumberIsPlain(t: string)
    requires forall i :: 0 <= i < |t| ==> IsNumberChar(t[i])
    ensures NoBraces(t)
  {
  }

  lemma NameIsPlain(t: string)
    requires IsIdentifier(t)
    ensures NoBraces(t) && QuoteFree(t)
  {
    forall i | 0 <= i < |t| ensures t[i] != '"' && t[i] != '{' && t[i] != '}' { assert IsIdentifierChar(t[i]); }
  }

  lemma ValueNeutral(v: Value)
    requires WellFormedValue(v)
    ensures Neutral(Printed(v))
  {
    hide Neutral;
    match v
    case Str(t) => QuotedNeutral(t);
    case Num(t) => NumberIsPlain(t); PlainNeutral(t);
  }

  lemma EntryNeutral(e: Entry)
    requires WellFormedEntry(e)
    ensures Neutral(PrintEntry(e))
  {
    hide Neutral, Printed, WellFormedValue;
    NameIsPlain(e.key);
    QuotedNeutral(e.key);
    PlainNeutral(": ");
    ValueNeutral(e.value);
    NeutralBoth(": ", Printed(e.value));
    NeutralBoth(Quoted(e.key), ": " + Printed(e.value));
    assert PrintEntry(e) == Quoted(e.key) + (": " + Printed(e.value));
  }

  lemma {:induction false} ListNeutral(es: seq<Entry>)
    requires WellFormed(es)
    ensures Neutral(PrintList(es))
    decreases |es|
  {
    hide Neutral, WellFormedEntry, PrintEntry;
    if es == [] {
      PlainNeutral("");
    } else {
      EntryNeutral(es[0]);
      if |es| > 1 {
        ListNeutral(es[1..]);
        PlainNeutral(", ");
        NeutralBoth(PrintEntry(es[0]), ", ");
        NeutralBoth(PrintEntry(es[0]) + ", ", PrintList(es[1..]));
      }
    }
  }

  lemma PrintedIsReadable(es: seq<Entry>)
    requires WellFormed(es)
    ensures Readable(Object(Print(es)))
  {
    hide Neutral, PrintList, WellFormed;
    ListNeutral(es);
  }
}
