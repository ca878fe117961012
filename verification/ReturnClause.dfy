/** The text RETURN produces (executor.cpp), said row by row. */
module ReturnClause {
  import opened Bytes
  import opened Ast
  import opened Json
  import opened Store
  import opened Matching

  function Decimal(n: nat): string {
    if n < 10 then [('0' as int + n) as char] else Decimal(n / 10) + [('0' as int + n % 10) as char]
  }

  /** The variable an item reads, "" for none. */
  function ItemVariable(item: Item<Lit>): string {
    match item.expr
    case Variable(x) => x
    case PropertyAccess(x, _) => x
    case _ => ""
  }

  /** max(1, the longest list of a referenced variable). */
  function RowCount(env: Env, items: seq<Item<Lit>>): (n: nat)
    ensures n >= 1
  {
    if items == [] then 1 else
    var rest := RowCount(env, items[..|items| - 1]);
    var own := |Bound(env, ItemVariable(items[|items| - 1]))|;
    if ItemVariable(items[|items| - 1]) != "" && own > rest then own else rest
  }

  /** What the executor knows of a node: nothing for an item without a variable name. */
  function KnownText(d: Db, x: string, id: u64): string {
    if x == "" then "" else NodeText(d, id)
  }

  function EdgeText(d: Db, id: u64): string {
    match GetEdge(d, id)
    case None => "null"
    case Some(e) =>
      "{\"_id\": " + Decimal(id) + ", \"_from\": " + Decimal(e.source) + ", \"_to\": " + Decimal(e.target)
      + ", \"_label\": \"" + e.lbl + "\""
      + (if Plain(e.properties) then "" else ", \"_properties\": " + e.properties) + "}"
  }

  predicate LooksNumeric(value: string) {
    value != "" && ('0' <= value[0] <= '9' || value[0] == '-')
  }

  function PropertyText(text: string, key: string): string {
    if text == "" || GetValue(text, key) == "" then "null"
    else ValueText(GetValue(text, key), !LooksNumeric(GetValue(text, key)))
  }

  /** The value of an item given the node text the executor has at hand. */
  function ItemValue(d: Db, item: Item<Lit>, id: u64, text: string): string {
    match item.expr
    case Variable(_) => if text != "" then text else EdgeText(d, id)
    case PropertyAccess(_, key) => PropertyText(text, key)
    case _ => ""
  }

  function Alias(item: Item<Lit>): string {
    if item.alias != "" then item.alias else
    match item.expr
    case Variable(x) => x
    case PropertyAccess(x, key) => x + "." + key
    case _ => ""
  }

  function ItemText(d: Db, env: Env, item: Item<Lit>, row: nat): string {
    if !item.expr.Variable? && !item.expr.PropertyAccess? then "" else
    var x := ItemVariable(item);
    Quoted(Alias(item)) + ": " +
    if row < |Bound(env, x)|
    then ItemValue(d, item, Bound(env, x)[row], KnownText(d, x, Bound(env, x)[row]))
    else "null"
  }

  function ItemsText(d: Db, env: Env, items: seq<Item<Lit>>, row: nat): string {
    if items == [] then "" else
    var n := |items| - 1;
    ItemsText(d, env, items[..n], row) + (if n == 0 then "" else ", ") + ItemText(d, env, items[n], row)
  }

  /** The first n rows. */
  function RowsText(d: Db, env: Env, items: seq<Item<Lit>>, n: nat): string {
    if n == 0 then "" else
    RowsText(d, env, items, n - 1) + (if n == 1 then "" else ", ") + "{" + ItemsText(d, env, items, n - 1) + "}"
  }

  function ReturnText(d: Db, env: Env, items: seq<Item<Lit>>): string {
    "[" + RowsText(d, env, items, RowCount(env, items)) + "]"
  }
}
