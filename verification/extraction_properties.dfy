/**
 Properties of the binding extractor: how each node kind contributes to
 `ExtractNamesFromNode`, an independent characterisation of which name nodes
 it returns, the one-level-deep behaviour of `for` targets, and the fixed
 group order of `ExtractAllVariableNames`.
 */
module ExtractionProperties {
  import opened Ast
  import opened ListHelpers
  import opened AstHelpers

  /*
   * Per-node extraction
   */

  /** The targets of an assignment, or the elements of a tuple, contribute in order. */
  lemma {:induction false} ExtractNodesIsFlat(ns: seq<Node>)
    ensures ExtractNamesFromNodes(ns) == Flat(Map(ExtractNamesFromNode, ns))
  {
    if ns != [] {
      ExtractNodesIsFlat(ns[1..]);
    }
  }

  lemma {:induction false} ExtractNodesAppend(a: seq<Node>, b: seq<Node>)
    ensures ExtractNamesFromNodes(a + b) == ExtractNamesFromNodes(a) + ExtractNamesFromNodes(b)
  {
    ExtractNodesIsFlat(a);
    ExtractNodesIsFlat(b);
    ExtractNodesIsFlat(a + b);
    MapAppend(ExtractNamesFromNode, a, b);
    FlatAppend(Map(ExtractNamesFromNode, a), Map(ExtractNamesFromNode, b));
  }

  /** `a = b = ... = v`: the targets' extractions concatenated left to right; the value is ignored. */
  lemma ChainedAssignment(targets: seq<Node>, value: Node)
    ensures ExtractNamesFromNode(Assign(targets, value)) == Flat(Map(ExtractNamesFromNode, targets))
    ensures |ExtractNamesFromNode(Assign(targets, value))| == SumLengths(Map(ExtractNamesFromNode, targets))
  {
    ExtractNodesIsFlat(targets);
  }

  /** A tuple flattens its elements, nested tuples included, in element order. */
  lemma TupleFlattens(elts: seq<Node>)
    ensures ExtractNamesFromNode(Tuple(elts)) == Flat(Map(ExtractNamesFromNode, elts))
  {
    ExtractNodesIsFlat(elts);
  }

  /** A name extracts to exactly itself. */
  lemma NameIsItsOwnBinding(id: string)
    ensures ExtractNamesFromNode(Name(id)) == [Name(id)]
  {
  }

  /** An annotated assignment binds what its target binds, whatever the annotation. */
  lemma AnnotationIgnored(target: Node, annotation: Node)
    ensures ExtractNamesFromNode(AnnAssign(target, annotation)) == ExtractNamesFromNode(target)
  {
  }

  /** The star of `*rest` is transparent. */
  lemma StarredIsTransparent(value: Node)
    ensures ExtractNamesFromNode(Starred(value)) == ExtractNamesFromNode(value)
  {
  }

  /** Lists, attributes, subscripts and every other node kind bind nothing. */
  lemma CatchAll(n: Node)
    requires !n.Name? && !n.Assign? && !n.AnnAssign? && !n.Starred? && !n.Tuple?
    ensures ExtractNamesFromNode(n) == []
  {
  }

  /**
   `m` occupies a binding position of `n`: `m` is a name reached from `n`
   through assignment targets, annotated-assignment targets, starred
   operands and tuple elements only.
   */
  ghost predicate BindsAt(n: Node, m: Node) {
    match n
    case Name(_) => m == n
    case Assign(targets, _) => exists i :: 0 <= i < |targets| && BindsAt(targets[i], m)
    case AnnAssign(target, _) => BindsAt(target, m)
    case Starred(value) => BindsAt(value, m)
    case Tuple(elts) => exists i :: 0 <= i < |elts| && BindsAt(elts[i], m)
    case _ => false
  }

  /** Extraction returns exactly the nodes in binding positions: nothing is dropped, nothing is invented. */
  lemma {:induction false} ExtractMembership(n: Node, m: Node)
    ensures m in ExtractNamesFromNode(n) <==> BindsAt(n, m)
  {
    match n
    case Name(_) =>
    case Assign(targets, _) => ExtractNodesMembership(targets, m);
    case AnnAssign(target, _) => ExtractMembership(target, m);
    case Starred(value) => ExtractMembership(value, m);
    case Tuple(elts) => ExtractNodesMembership(elts, m);
    case _ =>
  }

  lemma {:induction false} ExtractNodesMembership(ns: seq<Node>, m: Node)
    ensures m in ExtractNamesFromNodes(ns) <==> exists i :: 0 <= i < |ns| && BindsAt(ns[i], m)
  {
    if ns != [] {
      ExtractMembership(ns[0], m);
      ExtractNodesMembership(ns[1..], m);
      if exists i :: 1 <= i < |ns| && BindsAt(ns[i], m) {
        var i :| 1 <= i < |ns| && BindsAt(ns[i], m);
        assert ns[1..][i - 1] == ns[i];
      }
      if exists i :: 0 <= i < |ns[1..]| && BindsAt(ns[1..][i], m) {
        var i :| 0 <= i < |ns[1..]| && BindsAt(ns[1..][i], m);
        assert BindsAt(ns[i + 1], m);
      }
    }
  }

  /*
   * Function-definition bindings
   */

  /**
   Only the plain positional parameter list matters; a definition with none,
   such as `def f(*args, **kwargs)`, binds nothing.
   */
  lemma FuncdefIgnoresOtherParameters(name: string, a: Arguments)
    ensures GetVarNamesFromFuncdef(FunctionDef(name, a))
         == GetVarNamesFromFuncdef(FunctionDef(name, Arguments([], a.args, None, [], None)))
    ensures a.args == [] ==> GetVarNamesFromFuncdef(FunctionDef(name, a)) == []
  {
  }

  /*
   * For-loop bindings
   */

  function OriginsOf(bs: seq<Binding>): seq<Origin> {
    Map((b: Binding) => b.origin, bs)
  }

  lemma {:induction false} DirectNamesAppend(a: seq<Node>, b: seq<Node>)
    ensures DirectNames(a + b) == DirectNames(a) + DirectNames(b)
  {
    if a == [] {
      assert a + b == b;
    } else {
      assert (a + b)[1..] == a[1..] + b;
      DirectNamesAppend(a[1..], b);
    }
  }

  /** The direct name elements keep their relative order. */
  lemma {:induction false} DirectNamesInOrder(elts: seq<Node>)
    ensures IsSubsequence(OriginsOf(DirectNames(elts)), Map((n: Node) => FromNode(n), elts))
  {
    if elts != [] {
      DirectNamesInOrder(elts[1..]);
      var rest := DirectNames(elts[1..]);
      var all := Map((n: Node) => FromNode(n), elts);
      assert all[1..] == Map((n: Node) => FromNode(n), elts[1..]);
      if elts[0].Name? {
        var r := [Binding(elts[0].id, FromNode(elts[0]))] + rest;
        assert OriginsOf(r)[1..] == OriginsOf(rest);
      }
    }
  }

  /** A tuple `for` target gives its direct name elements, in element order. */
  lemma ForTupleTargetInOrder(elts: seq<Node>, iter: Node)
    ensures GetVarNamesFromFor(For(Tuple(elts), iter)) == DirectNames(elts)
    ensures IsSubsequence(OriginsOf(GetVarNamesFromFor(For(Tuple(elts), iter))), Map((n: Node) => FromNode(n), elts))
  {
    DirectNamesInOrder(elts);
  }

  /**
   The asymmetry between the two destructurings: `for k, (v1, v2) in ...`
   binds only `k`, while `k, (v1, v2) = ...` binds all three.
   */
  lemma ForTargetIsOneLevelDeep(k: string, v1: string, v2: string, iter: Node, value: Node)
    ensures var target := Tuple([Name(k), Tuple([Name(v1), Name(v2)])]);
            && GetVarNamesFromFor(For(target, iter)) == [Binding(k, FromNode(Name(k)))]
            && ExtractNamesFromNode(Assign([target], value)) == [Name(k), Name(v1), Name(v2)]
  {
    var inner := Tuple([Name(v1), Name(v2)]);
    var elts := [Name(k), inner];
    assert elts[1..] == [inner];
    assert [inner][1..] == [];
    assert DirectNames([inner]) == [];
    assert DirectNames(elts) == [Binding(k, FromNode(Name(k)))];
    assert [Name(v1), Name(v2)][1..] == [Name(v2)];
    assert [Name(v2)][1..] == [];
    assert ExtractNamesFromNodes([Name(v2)]) == [Name(v2)];
    assert ExtractNamesFromNodes([Name(v1), Name(v2)]) == [Name(v1), Name(v2)];
    assert ExtractNamesFromNodes([inner]) == [Name(v1), Name(v2)];
    assert ExtractNamesFromNodes(elts) == [Name(k), Name(v1), Name(v2)];
    var target := Tuple(elts);
    assert [target][1..] == [];
  }

  /*
   * The whole tree
   */

  /** The walk filters keep every occurrence, in walk order: they distribute over concatenation. */
  lemma {:induction false} AssignmentsAppend(a: seq<Node>, b: seq<Node>)
    ensures Assignments(a + b) == Assignments(a) + Assignments(b)
  {
    if a == [] {
      assert a + b == b;
    } else {
      assert (a + b)[1..] == a[1..] + b;
      AssignmentsAppend(a[1..], b);
    }
  }

  lemma {:induction false} FunctionDefsAppend(a: seq<Node>, b: seq<Node>)
    ensures FunctionDefs(a + b) == FunctionDefs(a) + FunctionDefs(b)
  {
    if a == [] {
      assert a + b == b;
    } else {
      assert (a + b)[1..] == a[1..] + b;
      FunctionDefsAppend(a[1..], b);
    }
  }

  lemma {:induction false} ForsAppend(a: seq<Node>, b: seq<Node>)
    ensures Fors(a + b) == Fors(a) + Fors(b)
  {
    if a == [] {
      assert a + b == b;
    } else {
      assert (a + b)[1..] == a[1..] + b;
      ForsAppend(a[1..], b);
    }
  }

  lemma {:induction false} AssignmentBindingsAppend(a: seq<Node>, b: seq<Node>)
    ensures AssignmentBindings(a + b) == AssignmentBindings(a) + AssignmentBindings(b)
  {
    if a == [] {
      assert a + b == b;
    } else {
      assert (a + b)[1..] == a[1..] + b;
      AssignmentBindingsAppend(a[1..], b);
    }
  }

  lemma {:induction false} FuncdefBindingsAppend(a: seq<Node>, b: seq<Node>)
    ensures FuncdefBindings(a + b) == FuncdefBindings(a) + FuncdefBindings(b)
  {
    if a == [] {
      assert a + b == b;
    } else {
      assert (a + b)[1..] == a[1..] + b;
      FuncdefBindingsAppend(a[1..], b);
    }
  }

  lemma {:induction false} ForBindingsAppend(a: seq<Node>, b: seq<Node>)
    ensures ForBindings(a + b) == ForBindings(a) + ForBindings(b)
  {
    if a == [] {
      assert a + b == b;
    } else {
      assert (a + b)[1..] == a[1..] + b;
      ForBindingsAppend(a[1..], b);
    }
  }

  /** The whole-tree result distributes over a split of the walk, group by group. */
  lemma WalkSplit(a: seq<Node>, b: seq<Node>)
    ensures ExtractAllVariableNames(a + b)
         == (AssignmentBindings(a) + AssignmentBindings(b))
          + (FuncdefBindings(a) + FuncdefBindings(b))
          + (ForBindings(a) + ForBindings(b))
  {
    AssignmentBindingsAppend(a, b);
    FuncdefBindingsAppend(a, b);
    ForBindingsAppend(a, b);
  }

  /** Which of the three groups, if any, a walked node contributes to. */
  function GroupOf(n: Node): nat {
    if IsAssignment(n) then 1 else if n.FunctionDef? then 2 else if n.For? then 3 else 0
  }

  /** What a single walked node contributes to each group. */
  lemma SingleNode(n: Node)
    ensures AssignmentBindings([n]) == (if IsAssignment(n) then GetVarNamesFromAssignment(n) else [])
    ensures FuncdefBindings([n]) == (if n.FunctionDef? then GetVarNamesFromFuncdef(n) else [])
    ensures ForBindings([n]) == (if n.For? then GetVarNamesFromFor(n) else [])
  {
    assert [n][1..] == [];
  }

  /** Two adjacent nodes of different groups contribute the same in either order. */
  lemma PairSwap(x: Node, y: Node)
    requires GroupOf(x) != GroupOf(y)
    ensures AssignmentBindings([x, y]) == AssignmentBindings([y, x])
    ensures FuncdefBindings([x, y]) == FuncdefBindings([y, x])
    ensures ForBindings([x, y]) == ForBindings([y, x])
  {
    SingleNode(x);
    SingleNode(y);
    assert [x, y][1..] == [y];
    assert [y, x][1..] == [x];
  }

  /**
   Nodes of different groups may trade places in the walk without changing
   the result: the groups are not interleaved by position.
   */
  lemma SwapAcrossGroups(before: seq<Node>, x: Node, y: Node, after: seq<Node>)
    requires GroupOf(x) != GroupOf(y)
    ensures ExtractAllVariableNames(before + [x, y] + after) == ExtractAllVariableNames(before + [y, x] + after)
  {
    PairSwap(x, y);
    WalkSplit(before + [x, y], after);
    WalkSplit(before + [y, x], after);
    AssignmentBindingsAppend(before, [x, y]);
    AssignmentBindingsAppend(before, [y, x]);
    FuncdefBindingsAppend(before, [x, y]);
    FuncdefBindingsAppend(before, [y, x]);
    ForBindingsAppend(before, [x, y]);
    ForBindingsAppend(before, [y, x]);
  }

  /**
   Within the assignment group, bindings follow the walk order: for walks
   holding no function definition and no loop (the root, the targets' name
   nodes and any other node may appear), the result of a concatenation is
   the concatenation of the results.
   */
  lemma WalkOrderWithinGroups(a: seq<Node>, b: seq<Node>)
    requires forall n :: n in a ==> !n.FunctionDef? && !n.For?
    requires forall n :: n in b ==> !n.FunctionDef? && !n.For?
    ensures ExtractAllVariableNames(a + b) == ExtractAllVariableNames(a) + ExtractAllVariableNames(b)
  {
    forall n | n in a + b ensures !n.FunctionDef? && !n.For? {
      assert n in a || n in b;
    }
    AssignmentsOnlyWalk(a);
    AssignmentsOnlyWalk(b);
    AssignmentsOnlyWalk(a + b);
    AssignmentBindingsAppend(a, b);
  }

  /** A walk without definitions or loops yields its assignment group alone. */
  lemma AssignmentsOnlyWalk(w: seq<Node>)
    requires forall n :: n in w ==> !n.FunctionDef? && !n.For?
    ensures ExtractAllVariableNames(w) == AssignmentBindings(w)
  {
    NoDefinitionsNoLoops(w);
    assert ExtractAllVariableNames(w) == AssignmentBindings(w) + [] + [];
  }

  lemma {:induction false} NoDefinitionsNoLoops(w: seq<Node>)
    requires forall n :: n in w ==> !n.FunctionDef? && !n.For?
    ensures FuncdefBindings(w) == [] && ForBindings(w) == []
  {
    if w != [] {
      assert w[0] in w;
      NoDefinitionsNoLoops(w[1..]);
    }
  }

  /**
   A tree with one assignment, one function definition and one loop yields
   the assignment's bindings, then the definition's, then the loop's,
   whatever order the walk visits them in and whatever other nodes (the
   root, the targets' names, the loop's iterable) it visits besides.
   */
  lemma OneOfEachGroup(walk: seq<Node>, a: Node, f: FunctionDefNode, l: ForNode)
    requires Assignments(walk) == [a]
    requires FunctionDefs(walk) == [f]
    requires Fors(walk) == [l]
    ensures ExtractAllVariableNames(walk)
         == GetVarNamesFromAssignment(a) + GetVarNamesFromFuncdef(f) + GetVarNamesFromFor(l)
  {
    AssignmentGroupIsReference(walk);
    FuncdefGroupIsReference(walk);
    ForGroupIsReference(walk);
    assert Flat(Map(GetVarNamesFromAssignment, [a])) == GetVarNamesFromAssignment(a);
    assert Flat(Map(GetVarNamesFromFuncdef, [f])) == GetVarNamesFromFuncdef(f);
    assert Flat(Map(GetVarNamesFromFor, [l])) == GetVarNamesFromFor(l);
  }
}
