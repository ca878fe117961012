/** The syntax tree of the query language (core/ast.h). It is generic in what a literal is: a value
    for the parser and the executor, an object for the query cache, which rebinds literals in place. */
module Ast {
  import opened Bytes

  datatype Lit = Lit(text: string, isString: bool)

  datatype Expr<L> =
    | Variable(name: string)
    | Literal(lit: L)
    | PropertyAccess(variable: string, key: string)
    | Binary(left: Expr<L>, op: string, right: Expr<L>)
    | ListLiteral(elements: seq<Expr<L>>)
    | MapLiteral(entries: seq<Prop<L>>)

  /** Maps from names to expressions (`std::map`) are sequences in ascending key order. */
  datatype Prop<L> = Prop(key: string, value: Expr<L>)

  datatype Node<L> = Node(variable: string, lbl: string, properties: seq<Prop<L>>)

  datatype Rel<L> = Rel(variable: string, kind: string, direction: string, properties: seq<Prop<L>>)

  /** A node and the relationship that leads to the next element, if any. */
  datatype Element<L> = Element(node: Node<L>, rel: Option<Rel<L>>)

  type Path<L> = seq<Element<L>>

  datatype Item<L> = Item(expr: Expr<L>, alias: string)

  datatype Assignment<L> = Assignment(variable: string, property: string, value: Expr<L>)

  datatype Clause<L> =
    | Create(paths: seq<Path<L>>)
    | Match(paths: seq<Path<L>>)
    | Return(items: seq<Item<L>>)
    | Where(condition: Expr<L>, variable: string, property: string, op: string, value: Option<Expr<L>>)
    | Delete(variables: seq<string>, detach: bool)
    | Set(assignments: seq<Assignment<L>>)
    | Unwind(list: Expr<L>, alias: string)

  type Statement<L> = seq<Clause<L>>
}
