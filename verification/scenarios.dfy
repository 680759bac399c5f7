/**
 Concrete statements and what the extractor returns for them.
 */
module Scenarios {
  import opened Ast
  import opened AstHelpers
  import opened ExtractionProperties

  function NodeBinding(id: string): Binding {
    Binding(id, FromNode(Name(id)))
  }

  /** `a = b = 1` binds `a` then `b`. */
  lemma ChainedAssignmentExample()
    ensures GetVarNamesFromAssignment(Assign([Name("a"), Name("b")], Other))
         == [NodeBinding("a"), NodeBinding("b")]
  {
    assert [Name("a"), Name("b")][1..] == [Name("b")];
    assert [Name("b")][1..] == [];
  }

  /** `a, *rest = [1, 2, 3]` binds `a` then `rest`. */
  lemma StarredDestructuringExample()
    ensures GetVarNamesFromAssignment(Assign([Tuple([Name("a"), Starred(Name("rest"))])], Other))
         == [NodeBinding("a"), NodeBinding("rest")]
  {
    var elts := [Name("a"), Starred(Name("rest"))];
    assert elts[1..] == [Starred(Name("rest"))];
    assert [Starred(Name("rest"))][1..] == [];
    assert ExtractNamesFromNodes(elts) == [Name("a"), Name("rest")];
    assert [Tuple(elts)][1..] == [];
  }

  /** `[a, b] = ...` and `self.x = ...` bind nothing: only tuples are destructured. */
  lemma UnrecognisedTargetsExample()
    ensures GetVarNamesFromAssignment(Assign([ListNode([Name("a"), Name("b")])], Other)) == []
    ensures GetVarNamesFromAssignment(Assign([Attribute(Name("self"), "x")], Other)) == []
  {
    assert [ListNode([Name("a"), Name("b")])][1..] == [];
    assert [Attribute(Name("self"), "x")][1..] == [];
  }

  /** `x: int = 1` binds `x` alone. */
  lemma AnnotatedAssignmentExample()
    ensures GetVarNamesFromAssignment(AnnAssign(Name("x"), Name("int"))) == [NodeBinding("x")]
  {
  }

  /** `def f(a, b): ...` binds `a` then `b`; `def g(*args, **kwargs): ...` binds nothing. */
  lemma FuncdefExample()
    ensures GetVarNamesFromFuncdef(FunctionDef("f", Arguments([], [Arg("a"), Arg("b")], None, [], None)))
         == [Binding("a", FromArg(Arg("a"))), Binding("b", FromArg(Arg("b")))]
    ensures GetVarNamesFromFuncdef(FunctionDef("g", Arguments([], [], Some(Arg("args")), [], Some(Arg("kwargs"))))) == []
  {
  }

  /** `for k, v in items: ...` binds `k` then `v`. */
  lemma ForPairExample()
    ensures GetVarNamesFromFor(For(Tuple([Name("k"), Name("v")]), Name("items")))
         == [NodeBinding("k"), NodeBinding("v")]
  {
    assert [Name("k"), Name("v")][1..] == [Name("v")];
    assert [Name("v")][1..] == [];
  }

  /** A walk with no statement of the three kinds contributes to no group. */
  lemma NoStatements(w: seq<Node>)
    requires forall n :: n in w ==> !IsAssignment(n) && !n.FunctionDef? && !n.For?
    ensures Assignments(w) == [] && FunctionDefs(w) == [] && Fors(w) == []
  {
    if Assignments(w) != [] {
      assert Assignments(w)[0] in Assignments(w);
    }
    if FunctionDefs(w) != [] {
      assert FunctionDefs(w)[0] in FunctionDefs(w);
    }
    if Fors(w) != [] {
      assert Fors(w)[0] in Fors(w);
    }
  }

  /** The module node and the three statements of the walk below, in visiting order. */
  lemma StatementFilters(stmts: seq<Node>, assign: Node, def: FunctionDefNode, loop: ForNode)
    requires IsAssignment(assign)
    requires stmts == [Other, assign, def, loop]
    ensures Assignments(stmts) == [assign] && FunctionDefs(stmts) == [def] && Fors(stmts) == [loop]
  {
    var tail := [assign, def, loop];
    assert stmts[0] == Other && stmts[1..] == tail;
    assert tail[0] == assign && tail[1..] == [def, loop];
    assert [def, loop][0] == def && [def, loop][1..] == [loop];
    assert Fors([def, loop]) == [loop];
    assert Fors(tail) == [loop];
    assert FunctionDefs([def, loop]) == [def];
    assert FunctionDefs(tail) == [def];
    assert Assignments([def, loop]) == [];
    assert Assignments(tail) == [assign];
  }

  /** The bindings of `x = ...`, `def f(a): ...` and `for i in y: ...` taken one at a time. */
  lemma ThreeStatements(x: string, f: string, a: string, i: string, y: string)
    ensures GetVarNamesFromAssignment(Assign([Name(x)], Other)) == [NodeBinding(x)]
    ensures GetVarNamesFromFuncdef(FunctionDef(f, Arguments([], [Arg(a)], None, [], None))) == [Binding(a, FromArg(Arg(a)))]
    ensures GetVarNamesFromFor(For(Name(i), Name(y))) == [NodeBinding(i)]
  {
    assert [Name(x)][1..] == [];
    assert ExtractNamesFromNodes([Name(x)]) == [Name(x)];
  }

  /** The children and grandchildren of the three statements are names and nodes of no extracted kind. */
  lemma PlainChildren(x: string, i: string, y: string)
    ensures forall n :: n in [Name(x), Other, Other, Other, Name(i), Name(y), Other, Other, Other, Other, Other] ==> !IsAssignment(n) && !n.FunctionDef? && !n.For?
  {
  }

  /** The module node, three statements, then children that are none of the three kinds. */
  lemma ModuleWalk(stmts: seq<Node>, children: seq<Node>, assign: Node, def: FunctionDefNode, loop: ForNode)
    requires IsAssignment(assign)
    requires stmts == [Other, assign, def, loop]
    requires forall n :: n in children ==> !IsAssignment(n) && !n.FunctionDef? && !n.For?
    ensures ExtractAllVariableNames(stmts + children)
         == GetVarNamesFromAssignment(assign) + GetVarNamesFromFuncdef(def) + GetVarNamesFromFor(loop)
  {
    NoStatements(children);
    StatementFilters(stmts, assign, def, loop);
    AssignmentsAppend(stmts, children);
    FunctionDefsAppend(stmts, children);
    ForsAppend(stmts, children);
    OneOfEachGroup(stmts + children, assign, def, loop);
  }

  /**
   `x = 1`, `def f(a): pass` and `for i in y: pass` at module level, walked
   breadth-first as `ast.walk` does: the module and its three statements,
   then their children (`x`, the constant, the parameter list, `pass`, `i`,
   `y`, `pass`) and grandchildren (three expression contexts and the `arg`
   node). Only the three statements contribute, group by group.
   */
  lemma WholeModuleExample(x: string, f: string, a: string, i: string, y: string)
    ensures ExtractAllVariableNames(
              [Other, Assign([Name(x)], Other), FunctionDef(f, Arguments([], [Arg(a)], None, [], None)), For(Name(i), Name(y))]
              + [Name(x), Other, Other, Other, Name(i), Name(y), Other, Other, Other, Other, Other])
         == [NodeBinding(x), Binding(a, FromArg(Arg(a))), NodeBinding(i)]
  {
    var assign := Assign([Name(x)], Other);
    var def: FunctionDefNode := FunctionDef(f, Arguments([], [Arg(a)], None, [], None));
    var loop: ForNode := For(Name(i), Name(y));
    var stmts := [Other, assign, def, loop];
    var children := [Name(x), Other, Other, Other, Name(i), Name(y), Other, Other, Other, Other, Other];
    PlainChildren(x, i, y);
    ModuleWalk(stmts, children, assign, def, loop);
    ThreeStatements(x, f, a, i, y);
  }
}
