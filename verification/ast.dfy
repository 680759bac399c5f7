/**
 The fragment of Python's abstract syntax tree that the binding extractor
 inspects. Node kinds the extractor does not dispatch on are either kept with
 their real shape (lists, attributes, subscripts: the targets that show the
 catch-all at work) or collapsed into `Other`.
 */
module Ast {

  datatype Option<+T> = None | Some(value: T)

  /** An `ast.arg`: one declared parameter of a function. */
  datatype Arg = Arg(arg: string)

  /** An `ast.arguments`: the parameter lists of a function definition. */
  datatype Arguments = Arguments(
    posonlyargs: seq<Arg>,
    args: seq<Arg>,
    vararg: Option<Arg>,
    kwonlyargs: seq<Arg>,
    kwarg: Option<Arg>)

  datatype Node =
    | Name(id: string)
      /** `t1 = t2 = ... = value`: one or more targets, one right-hand side */
    | Assign(targets: seq<Node>, value: Node)
      /** `target: annotation = ...` */
    | AnnAssign(target: Node, annotation: Node)
      /** `*value` inside a destructuring target */
    | Starred(value: Node)
    | Tuple(elts: seq<Node>)
      /** `[a, b]`: Python's `ast.List` */
    | ListNode(elts: seq<Node>)
    | Attribute(value: Node, attr: string)
    | Subscript(value: Node, slice: Node)
    | FunctionDef(name: string, args: Arguments)
      /** `for target in iter: ...` */
    | For(target: Node, iter: Node)
      /** every other kind of node */
    | Other

  /** The node types named in the signatures of the per-construct extractors. */
  type FunctionDefNode = n: Node | n.FunctionDef? witness FunctionDef("f", Arguments([], [], None, [], None))
  type ForNode = n: Node | n.For? witness For(Other, Other)

  /** The node a binding points back to: an `ast.Name` or an `ast.arg`. */
  datatype Origin = FromNode(node: Node) | FromArg(param: Arg)

  /** One extracted binding: the identifier and the node that introduced it. */
  datatype Binding = Binding(name: string, origin: Origin)

  /** A binding whose identifier is the one spelled by its origin node. */
  predicate Consistent(b: Binding) {
    match b.origin
    case FromNode(n) => n.Name? && b.name == n.id
    case FromArg(a) => b.name == a.arg
  }
}
