/**
 The binding extractor: pattern matchers over node kinds that return, in
 order, the identifiers bound by assignments, annotated assignments,
 positional function parameters and `for`-loop targets, each paired with the
 node that introduced it.
 */
module AstHelpers {
  import opened Ast
  import opened ListHelpers

  predicate AllNames(ns: seq<Node>) {
    forall i :: 0 <= i < |ns| ==> ns[i].Name?
  }

  /**
   The name nodes bound by `n`: a name binds itself, an assignment binds
   what each of its targets binds, an annotated assignment what its target
   binds, a starred element what its operand binds and a tuple what each of
   its elements binds. Every other kind of node, a list display included,
   binds nothing.
   */
  function ExtractNamesFromNode(n: Node): (r: seq<Node>)
    ensures AllNames(r)
  {
    match n
    case Name(_) => [n]
    case Assign(targets, _) => ExtractNamesFromNodes(targets)
    case AnnAssign(target, _) => ExtractNamesFromNode(target)
    case Starred(value) => ExtractNamesFromNode(value)
    case Tuple(elts) => ExtractNamesFromNodes(elts)
    case _ => []
  }

  /** The loop `for t in ns: nodes.extend(ExtractNamesFromNode(t))`. */
  function ExtractNamesFromNodes(ns: seq<Node>): (r: seq<Node>)
    ensures AllNames(r)
  {
    if ns == [] then [] else ExtractNamesFromNode(ns[0]) + ExtractNamesFromNodes(ns[1..])
  }

  /** `[(n.id, n) for n in ns]` */
  function NameBindings(ns: seq<Node>): seq<Binding>
    requires AllNames(ns)
  {
    seq(|ns|, i requires 0 <= i < |ns| => Binding(ns[i].id, FromNode(ns[i])))
  }

  /**
   One binding per extracted name node, in the same order, each carrying the
   identifier of that node.
   */
  function GetVarNamesFromAssignment(n: Node): (r: seq<Binding>)
    ensures |r| == |ExtractNamesFromNode(n)|
    ensures forall i :: 0 <= i < |r| ==> r[i].origin == FromNode(ExtractNamesFromNode(n)[i]) && Consistent(r[i])
  {
    NameBindings(ExtractNamesFromNode(n))
  }

  /** The loop appending `(arg.arg, arg)` for each positional parameter. */
  function ArgBindings(params: seq<Arg>): (r: seq<Binding>)
    ensures |r| == |params|
    ensures forall i :: 0 <= i < |r| ==> r[i].origin == FromArg(params[i]) && Consistent(r[i])
  {
    if params == [] then [] else [Binding(params[0].arg, FromArg(params[0]))] + ArgBindings(params[1..])
  }

  /**
   One binding per plain positional parameter, in declaration order;
   positional-only, keyword-only, `*args` and `**kwargs` parameters are not
   looked at.
   */
  function GetVarNamesFromFuncdef(f: FunctionDefNode): (r: seq<Binding>)
    ensures |r| == |f.args.args|
    ensures forall i :: 0 <= i < |r| ==> r[i].origin == FromArg(f.args.args[i]) && Consistent(r[i])
  {
    ArgBindings(f.args.args)
  }

  /** `[(n.id, n) for n in elts if isinstance(n, ast.Name)]` */
  function DirectNames(elts: seq<Node>): (r: seq<Binding>)
    ensures |r| <= |elts|
    ensures forall b :: b in r ==> b.origin.FromNode? && b.origin.node in elts && Consistent(b)
    ensures forall i :: 0 <= i < |elts| && elts[i].Name? ==> Binding(elts[i].id, FromNode(elts[i])) in r
  {
    if elts == [] then []
    else
      var rest := DirectNames(elts[1..]);
      assert forall i :: 1 <= i < |elts| ==> elts[i] == elts[1..][i - 1];
      if elts[0].Name? then [Binding(elts[0].id, FromNode(elts[0]))] + rest else rest
  }

  /**
   A name target binds itself; a tuple target binds its direct name
   elements only (nested tuples and starred elements are skipped); any other
   target binds nothing.
   */
  function GetVarNamesFromFor(f: ForNode): (r: seq<Binding>)
    ensures forall b :: b in r ==> Consistent(b)
    ensures !f.target.Name? && !f.target.Tuple? ==> r == []
    ensures f.target.Tuple? ==> |r| <= |f.target.elts|
    ensures f.target.Tuple? ==> forall b :: b in r ==> b.origin.FromNode? && b.origin.node in f.target.elts
    ensures f.target.Tuple? ==> forall i :: 0 <= i < |f.target.elts| && f.target.elts[i].Name? ==>
              Binding(f.target.elts[i].id, FromNode(f.target.elts[i])) in r
    ensures f.target.Name? ==> |r| == 1 && r[0].origin == FromNode(f.target)
  {
    match f.target
    case Name(id) => [Binding(id, FromNode(f.target))]
    case Tuple(elts) => DirectNames(elts)
    case _ => []
  }

  predicate IsAssignment(n: Node) {
    n.Assign? || n.AnnAssign?
  }

  /** `[n for n in walk if isinstance(n, (ast.Assign, ast.AnnAssign))]` */
  function Assignments(walk: seq<Node>): (r: seq<Node>)
    ensures forall n :: n in r <==> n in walk && IsAssignment(n)
    ensures |walk| == 1 ==> r == (if IsAssignment(walk[0]) then walk else [])
  {
    if walk == [] then []
    else if IsAssignment(walk[0]) then [walk[0]] + Assignments(walk[1..])
    else Assignments(walk[1..])
  }

  /** `[n for n in walk if isinstance(n, ast.FunctionDef)]` */
  function FunctionDefs(walk: seq<Node>): (r: seq<FunctionDefNode>)
    ensures forall n :: n in r <==> n in walk && n.FunctionDef?
    ensures |walk| == 1 ==> r == (if walk[0].FunctionDef? then walk else [])
  {
    if walk == [] then []
    else if walk[0].FunctionDef? then [walk[0]] + FunctionDefs(walk[1..])
    else FunctionDefs(walk[1..])
  }

  /** `[n for n in walk if isinstance(n, ast.For)]` */
  function Fors(walk: seq<Node>): (r: seq<ForNode>)
    ensures forall n :: n in r <==> n in walk && n.For?
    ensures |walk| == 1 ==> r == (if walk[0].For? then walk else [])
  {
    if walk == [] then []
    else if walk[0].For? then [walk[0]] + Fors(walk[1..])
    else Fors(walk[1..])
  }

  /*
   Reference definitions of the three groups: one pass over the walk, each
   node contributing its own bindings where it stands.
   */

  function AssignmentBindings(walk: seq<Node>): seq<Binding> {
    if walk == [] then []
    else (if IsAssignment(walk[0]) then GetVarNamesFromAssignment(walk[0]) else [])
         + AssignmentBindings(walk[1..])
  }

  function FuncdefBindings(walk: seq<Node>): seq<Binding> {
    if walk == [] then []
    else (if walk[0].FunctionDef? then GetVarNamesFromFuncdef(walk[0]) else [])
         + FuncdefBindings(walk[1..])
  }

  function ForBindings(walk: seq<Node>): seq<Binding> {
    if walk == [] then []
    else (if walk[0].For? then GetVarNamesFromFor(walk[0]) else [])
         + ForBindings(walk[1..])
  }

  /** `flat([get_var_names_from_assignment(a) for a in assignments])` */
  function AssignmentGroup(walk: seq<Node>): (r: seq<Binding>)
    ensures r == AssignmentBindings(walk)
  {
    AssignmentGroupIsReference(walk);
    Flat(Map(GetVarNamesFromAssignment, Assignments(walk)))
  }

  /** `flat([get_var_names_from_funcdef(f) for f in funcdefs])` */
  function FuncdefGroup(walk: seq<Node>): (r: seq<Binding>)
    ensures r == FuncdefBindings(walk)
  {
    FuncdefGroupIsReference(walk);
    Flat(Map(GetVarNamesFromFuncdef, FunctionDefs(walk)))
  }

  /** `flat([get_var_names_from_for(f) for f in fors])` */
  function ForGroup(walk: seq<Node>): (r: seq<Binding>)
    ensures r == ForBindings(walk)
  {
    ForGroupIsReference(walk);
    Flat(Map(GetVarNamesFromFor, Fors(walk)))
  }

  /**
   All bindings of a tree, given the nodes `ast.walk` visits in the order it
   visits them: first every assignment's, then every function definition's,
   then every `for` loop's, each group in walk order.
   */
  function ExtractAllVariableNames(walk: seq<Node>): (r: seq<Binding>)
    ensures r == AssignmentBindings(walk) + FuncdefBindings(walk) + ForBindings(walk)
  {
    AssignmentGroup(walk) + FuncdefGroup(walk) + ForGroup(walk)
  }

  lemma {:induction false} AssignmentGroupIsReference(walk: seq<Node>)
    ensures Flat(Map(GetVarNamesFromAssignment, Assignments(walk))) == AssignmentBindings(walk)
  {
    if walk != [] {
      AssignmentGroupIsReference(walk[1..]);
      if IsAssignment(walk[0]) {
        assert ([walk[0]] + Assignments(walk[1..]))[1..] == Assignments(walk[1..]);
      }
    }
  }

  lemma {:induction false} FuncdefGroupIsReference(walk: seq<Node>)
    ensures Flat(Map(GetVarNamesFromFuncdef, FunctionDefs(walk))) == FuncdefBindings(walk)
  {
    if walk != [] {
      FuncdefGroupIsReference(walk[1..]);
      if walk[0].FunctionDef? {
        var f: FunctionDefNode := walk[0];
        assert ([f] + FunctionDefs(walk[1..]))[1..] == FunctionDefs(walk[1..]);
      }
    }
  }

  lemma {:induction false} ForGroupIsReference(walk: seq<Node>)
    ensures Flat(Map(GetVarNamesFromFor, Fors(walk))) == ForBindings(walk)
  {
    if walk != [] {
      ForGroupIsReference(walk[1..]);
      if walk[0].For? {
        var l: ForNode := walk[0];
        assert ([l] + Fors(walk[1..]))[1..] == Fors(walk[1..]);
      }
    }
  }

  /** Every binding of the whole tree carries the identifier of its origin node. */
  lemma ExtractAllConsistent(walk: seq<Node>)
    ensures forall b :: b in ExtractAllVariableNames(walk) ==> Consistent(b)
  {
    GroupsConsistent(walk);
  }

  lemma {:induction false} GroupsConsistent(walk: seq<Node>)
    ensures forall b :: b in AssignmentBindings(walk) + FuncdefBindings(walk) + ForBindings(walk) ==> Consistent(b)
  {
    if walk != [] {
      GroupsConsistent(walk[1..]);
      var w := walk[0];
      if IsAssignment(w) {
        forall b | b in GetVarNamesFromAssignment(w) ensures Consistent(b) {
          var r := GetVarNamesFromAssignment(w);
          var i :| 0 <= i < |r| && r[i] == b;
        }
      }
      if w.FunctionDef? {
        forall b | b in GetVarNamesFromFuncdef(w) ensures Consistent(b) {
          var r := GetVarNamesFromFuncdef(w);
          var i :| 0 <= i < |r| && r[i] == b;
        }
      }
    }
  }
}
