/** The JSON text helpers of storage.cpp and executor.cpp: a tolerant reader of all properties, a
    reader of one property, and an updater. None of them is a JSON parser; they look for quotes,
    colons and separators from a position on. The functions say what each search leads to; the
    methods move a position through the text like the source. |s| stands for `npos`. */
module Json {
  import opened Bytes

  datatype Field = Field(key: string, value: string)

  /** The character sets the searches stop at or skip. */
  datatype Chars = QUOTE | COLON | SPACE | SEPARATORS | VALUE_END | UPDATE_END

  predicate Has(cs: Chars, c: char) {
    match cs
    case QUOTE => c == '"'
    case COLON => c == ':'
    case SPACE => c == ' '
    case SEPARATORS => c == ',' || c == ' '
    case VALUE_END => c == ',' || c == '}' || c == ' '
    case UPDATE_END => c == ',' || c == '}'
  }

  /** The first position from `pos` on that holds one of `stops`. */
  function Find(s: string, stops: Chars, pos: nat): (n: nat)
    requires pos <= |s|
    ensures pos <= n <= |s|
    ensures n < |s| ==> Has(stops, s[n])
    decreases |s| - pos
  {
    if pos == |s| || Has(stops, s[pos]) then pos else Find(s, stops, pos + 1)
  }

  /** The first position from `pos` on that holds none of `skip`. */
  function Skip(s: string, skip: Chars, pos: nat): (n: nat)
    requires pos <= |s|
    ensures pos <= n <= |s|
    ensures n < |s| ==> !Has(skip, s[n])
    decreases |s| - pos
  {
    if pos == |s| || !Has(skip, s[pos]) then pos else Skip(s, skip, pos + 1)
  }

  // ---- parse_json_properties ----

  function Parse(json: string): seq<Field> {
    if |json| < 2 || json[0] != '{' then [] else ParseFields(json, 1)
  }

  function ParseFields(json: string, pos: nat): seq<Field>
    requires pos <= |json|
    decreases |json| - pos, 1
  {
    var open := Find(json, QUOTE, pos);
    if open == |json| then [] else
    var close := Find(json, QUOTE, open + 1);
    if close == |json| then [] else
    ParseValue(json, json[open + 1..close], close + 1)
  }

  function ParseValue(json: string, key: string, pos: nat): seq<Field>
    requires pos <= |json|
    decreases |json| - pos, 0
  {
    var colon := Find(json, COLON, pos);
    if colon == |json| then [] else
    var start := Skip(json, SPACE, colon + 1);
    if start == |json| then [] else
    if json[start] == '"' then
      var close := Find(json, QUOTE, start + 1);
      if close == |json| then [] else
      [Field(key, json[start + 1..close])] + ParseRest(json, close + 1)
    else
      var end := Find(json, VALUE_END, start);
      [Field(key, json[start..end])] + ParseRest(json, end)
  }

  function ParseRest(json: string, pos: nat): seq<Field>
    requires pos <= |json|
    decreases |json| - pos, 2
  {
    var next := Skip(json, SEPARATORS, pos);
    if next < |json| && json[next] == '}' then [] else ParseFields(json, next)
  }

  // ---- get_json_value ----

  function GetValue(json: string, key: string): string {
    GetFrom(json, key, 0)
  }

  /** The key with its closing quote stands at `pos`. */
  predicate KeyAt(json: string, key: string, pos: nat) {
    pos + |key| < |json| && json[pos + |key|] == '"' && json[pos..pos + |key|] == key
  }

  function GetFrom(json: string, key: string, pos: nat): string
    requires pos <= |json|
    decreases |json| - pos
  {
    var open := Find(json, QUOTE, pos);
    if open == |json| then "" else
    if KeyAt(json, key, open + 1) then ValueAfterKey(json, open + |key| + 2) else
    var close := Find(json, QUOTE, open + 1);
    if close == |json| then "" else GetFrom(json, key, close + 1)
  }

  function ValueAfterKey(json: string, pos: nat): string
    requires pos <= |json|
  {
    var colon := Find(json, COLON, pos);
    if colon == |json| then "" else
    var start := Skip(json, SPACE, colon + 1);
    if start == |json| then "" else
    if json[start] == '"' then
      var close := Find(json, QUOTE, start + 1);
      if close == |json| then "" else json[start + 1..close]
    else
      json[start..Find(json, VALUE_END, start)]
  }

  // ---- update_json_property ----

  /** `pattern` stands in `s` at `pos`. */
  predicate At(s: string, pos: nat, pattern: string) {
    pos + |pattern| <= |s| && s[pos..pos + |pattern|] == pattern
  }

  /** `find` of a non-empty pattern. */
  function FindText(s: string, pattern: string, pos: nat): (n: nat)
    requires pattern != "" && pos <= |s|
    ensures pos <= n <= |s|
    ensures n < |s| ==> At(s, n, pattern)
    decreases |s| - pos
  {
    if pos == |s| || At(s, pos, pattern) then pos else FindText(s, pattern, pos + 1)
  }

  /** `rfind` of a character: one past its last position below `end`, 0 for npos. */
  function LastEnd(s: string, c: char, end: nat): (n: nat)
    requires end <= |s|
    ensures n <= end
    ensures n > 0 ==> s[n - 1] == c
  {
    if end == 0 || s[end - 1] == c then end else LastEnd(s, c, end - 1)
  }

  function Quoted(s: string): (r: string)
    ensures |r| == |s| + 2
  {
    "\"" + s + "\""
  }

  function ValueText(value: string, isString: bool): string {
    if isString then Quoted(value) else value
  }

  /** None stands for the `std::out_of_range` thrown when a quoted value is not closed. */
  function Update(json: string, key: string, value: string, isString: bool): Option<string> {
    var newValue := ValueText(value, isString);
    var at := FindText(json, Quoted(key), 0);
    if at < |json| then ReplaceValue(json, at + |key| + 2, newValue)
    else Some(AppendProperty(json, key, newValue))
  }

  /** Replaces the first value after the first colon; without a colon the text stays. */
  function ReplaceValue(json: string, pos: nat, newValue: string): Option<string>
    requires pos <= |json|
  {
    var colon := Find(json, COLON, pos);
    if colon == |json| then Some(json) else
    var start := Skip(json, SPACE, colon + 1);
    if start < |json| && json[start] == '"' then
      var close := Find(json, QUOTE, start + 1);
      if close == |json| then None else Some(json[..start] + newValue + json[close + 1..])
    else
      Some(json[..start] + newValue + json[Find(json, UPDATE_END, start)..])
  }

  function AppendProperty(json: string, key: string, newValue: string): string {
    var end := LastEnd(json, '}', |json|);
    if end == 0 then json else
    json[..end - 1]
    + (if end - 1 > 1 && json[end - 2] != '{' then ", " else "")
    + Quoted(key) + ": " + newValue + "}"
  }

  // ---- the source's loops ----

  method SkipWhile(s: string, skip: Chars, start: nat) returns (pos: nat)
    requires start <= |s|
    ensures pos == Skip(s, skip, start)
  {
    pos := start;
    while pos < |s| && Has(skip, s[pos])
      invariant start <= pos <= |s|
      invariant Skip(s, skip, start) == Skip(s, skip, pos)
    {
      pos := pos + 1;
    }
  }

  method SkipUntil(s: string, stops: Chars, start: nat) returns (pos: nat)
    requires start <= |s|
    ensures pos == Find(s, stops, start)
  {
    pos := start;
    while pos < |s| && !Has(stops, s[pos])
      invariant start <= pos <= |s|
      invariant Find(s, stops, start) == Find(s, stops, pos)
    {
      pos := pos + 1;
    }
  }

  method ParseJsonProperties(json: string) returns (result: seq<Field>)
    ensures result == Parse(json)
  {
    hide Find, Skip, ParseValue;
    result := [];
    if |json| < 2 || json[0] != '{' { return; }
    var pos: nat := 1;
    while pos < |json|
      invariant 1 <= pos <= |json|
      invariant Parse(json) == result + ParseFields(json, pos)
      decreases |json| - pos
    {
      pos := Find(json, QUOTE, pos);
      if pos == |json| { return; }
      pos := pos + 1;
      var keyEnd := Find(json, QUOTE, pos);
      if keyEnd == |json| { return; }
      var key := json[pos..keyEnd];
      var found, value, next := ParseJsonValue(json, key, keyEnd + 1);
      if !found { return; }
      result := result + [Field(key, value)];
      pos := SkipWhile(json, SEPARATORS, next);
      if pos < |json| && json[pos] == '}' { return; }
    }
  }

  /** The loop body from the key's closing quote on; `found` is false where the source breaks. */
  method ParseJsonValue(json: string, key: string, start: nat)
    returns (found: bool, value: string, next: nat)
    requires start <= |json|
    ensures found ==> start < next <= |json|
    ensures ParseValue(json, key, start)
         == if found then [Field(key, value)] + ParseRest(json, next) else []
  {
    hide Find, Skip, ParseRest;
    found, value, next := false, "", start;
    var pos := Find(json, COLON, start);
    if pos == |json| { return; }
    pos := pos + 1;
    pos := SkipWhile(json, SPACE, pos);
    if pos >= |json| { return; }
    if json[pos] == '"' {
      pos := pos + 1;
      var valueEnd := Find(json, QUOTE, pos);
      if valueEnd == |json| { return; }
      found, value, next := true, json[pos..valueEnd], valueEnd + 1;
    } else {
      var valueEnd := SkipUntil(json, VALUE_END, pos);
      found, value, next := true, json[pos..valueEnd], valueEnd;
    }
  }

  method GetJsonValue(json: string, key: string) returns (value: string)
    ensures value == GetValue(json, key)
  {
    hide Find, Skip, ValueAfterKey, KeyAt;
    var pos := 0;
    while pos < |json|
      invariant 0 <= pos <= |json|
      invariant GetValue(json, key) == GetFrom(json, key, pos)
    {
      pos := Find(json, QUOTE, pos);
      if pos == |json| { return ""; }
      pos := pos + 1;
      if KeyAt(json, key, pos) {
        KeyFits(json, key, pos);
        value := ReadJsonValue(json, pos + |key| + 1);
        return;
      }
      pos := Find(json, QUOTE, pos);
      if pos == |json| { return ""; }
      pos := pos + 1;
    }
    return "";
  }

  lemma KeyFits(json: string, key: string, pos: nat)
    requires KeyAt(json, key, pos)
    ensures pos + |key| < |json|
  {
  }

  /** The value behind the key's closing quote. */
  method ReadJsonValue(json: string, start: nat) returns (value: string)
    requires start <= |json|
    ensures value == ValueAfterKey(json, start)
  {
    hide Find, Skip;
    var pos := SkipUntil(json, COLON, start);
    if pos >= |json| { return ""; }
    pos := pos + 1;
    pos := SkipWhile(json, SPACE, pos);
    if pos >= |json| { return ""; }
    if json[pos] == '"' {
      var end := Find(json, QUOTE, pos + 1);
      if end == |json| { return ""; }
      return json[pos + 1..end];
    } else {
      var end := SkipUntil(json, VALUE_END, pos);
      return json[pos..end];
    }
  }

  method UpdateJsonProperty(json: string, key: string, value: string, isString: bool)
    returns (result: Option<string>)
    ensures result == Update(json, key, value, isString)
  {
    hide Find, Skip;
    var search := Quoted(key);
    var pos := FindText(json, search, 0);
    var newVal := ValueText(value, isString);
    if pos < |json| {
      var colon := Find(json, COLON, pos + |search|);
      if colon == |json| { return Some(json); }
      colon := colon + 1;
      colon := SkipWhile(json, SPACE, colon);
      var valEnd;
      if colon < |json| && json[colon] == '"' {
        valEnd := Find(json, QUOTE, colon + 1);
        if valEnd == |json| { return None; }
        valEnd := valEnd + 1;
      } else {
        valEnd := SkipUntil(json, UPDATE_END, colon);
      }
      return Some(json[..colon] + newVal + json[valEnd..]);
    } else {
      var end := LastEnd(json, '}', |json|);
      if end == 0 { return Some(json); }
      var closing := end - 1;
      var separator := "";
      if closing > 1 && json[closing - 1] != '{' { separator := ", "; }
      return Some(json[..closing] + separator + search + ": " + newVal + "}");
    }
  }
}
