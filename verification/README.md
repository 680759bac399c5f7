# Binding extractor of flake8-variables-names, in Dafny

flake8-variables-names is a flake8 plugin that checks variable names against
naming rules. `flake8_variables_names/ast_helpers.py` collects the
identifiers bound by four kinds of construct. It returns each one as a pair:
the identifier, and the syntax-tree node that introduced it. The four kinds
are:

- assignment targets (`a = b = ...`, `x, (y, z) = ...`, `a, *rest = ...`);
- annotated-assignment targets (`x: int = ...`);
- plain positional parameters of `def`;
- `for`-loop targets (`for k, v in ...`).

Other bindings are never collected. These include imports, `with ... as`,
`except ... as`, augmented assignments, `:=`, comprehension targets,
keyword-only parameters, `*args`/`**kwargs`, and `async def`/`async for`.

This project models that extractor as pure functions over an immutable
syntax-tree datatype and proves what each function returns.

## Layout

- `ast.dfy` (module `Ast`): the node kinds the extractor dispatches on.
  - `Name`, `Assign`, `AnnAssign`, `Starred`, `Tuple` and `For` are modelled.
  - `FunctionDef` is modelled with its full `ast.arguments` parameter lists.
  - Three target kinds the extractor ignores are modelled too: `ListNode` (Python's `ast.List`), `Attribute` and `Subscript`.
  - Every other node kind is collapsed into `Other`.
  - A `Binding` is an identifier plus an `Origin`. The origin is either the `ast.Name` node or the `ast.arg` parameter.
  - The `FunctionDefNode` and `ForNode` subset types stand for the parameter types of the per-construct functions.
- `list_helpers.dfy` (module `ListHelpers`): `Flat` (list-of-lists concatenation), `Map` (a list comprehension) and `IsSubsequence` (order-preserving deletion).
- `ast_helpers.dfy` (module `AstHelpers`): the five functions of the source file.
  - It also defines the filters over the walked nodes and a one-pass reference definition of each output group.
  - Each group as the source computes it is proved equal to its reference definition.
- `extraction_properties.dfy` (module `ExtractionProperties`): the properties.
  - How each node kind contributes.
  - An independent characterisation of which name nodes are extracted.
  - The one-level-deep `for` targets.
  - The fixed group order of the whole-tree result.
- `scenarios.dfy` (module `Scenarios`): concrete statements and their bindings.

`ast.walk` is not modelled. The top-level function takes the sequence of
nodes the walk visits, in visiting order, as its parameter.

Two asymmetries in the code are kept on purpose:

- Assignment targets are destructured through nested tuples, but `for` targets only one level deep (`ForTargetIsOneLevelDeep`).
- Only `ast.Tuple` is destructured. Python's `ast` has separate `Tuple` and `List` nodes, and the code tests `isinstance(node, ast.Tuple)` only. A list target such as `[a, b] = ...` therefore falls through to the catch-all and binds nothing (`CatchAll`, `UnrecognisedTargetsExample`).

## Model

| member | source | states |
|---|---|---|
| AstHelpers.ExtractNamesFromNode | flake8_variables_names/ast_helpers.py:7-24 | every node returned is an `ast.Name` node |
| AstHelpers.ExtractNamesFromNodes | flake8_variables_names/ast_helpers.py:11-14 | the accumulation loop over targets or elements returns only `ast.Name` nodes |
| ExtractionProperties.NameIsItsOwnBinding | flake8_variables_names/ast_helpers.py:8-9 | a name node extracts to the one-element list holding itself |
| ExtractionProperties.ChainedAssignment | flake8_variables_names/ast_helpers.py:10-14 | an assignment yields the concatenation, left to right, of its targets' extractions; its length is the sum of theirs; the right-hand side is ignored |
| ExtractionProperties.AnnotationIgnored | flake8_variables_names/ast_helpers.py:15-16 | an annotated assignment yields exactly what its target yields, whatever the annotation |
| ExtractionProperties.StarredIsTransparent | flake8_variables_names/ast_helpers.py:17-18 | `extract(Starred(v)) == extract(v)` |
| ExtractionProperties.TupleFlattens | flake8_variables_names/ast_helpers.py:19-23 | a tuple yields its elements' extractions concatenated in element order, nested tuples included |
| ExtractionProperties.CatchAll | flake8_variables_names/ast_helpers.py:24 | lists, attributes, subscripts, definitions, loops and every other kind of node yield the empty list |
| ExtractionProperties.ExtractNodesIsFlat | flake8_variables_names/ast_helpers.py:20-23 | the element loop equals `flat` of the per-element extractions |
| ExtractionProperties.ExtractNodesAppend | flake8_variables_names/ast_helpers.py:20-23 | extracting from `a + b` is extracting from `a` followed by extracting from `b` |
| ExtractionProperties.ExtractMembership | flake8_variables_names/ast_helpers.py:7-24 | a node is returned if and only if it is a name reachable through targets, starred operands and tuple elements only |
| ExtractionProperties.ExtractNodesMembership | flake8_variables_names/ast_helpers.py:12-13 | a node comes out of the loop over a list if and only if some item of the list binds it |
| AstHelpers.GetVarNamesFromAssignment | flake8_variables_names/ast_helpers.py:27-30 | one binding per extracted name node, same length and order; each binding's origin is that node and its identifier is that node's `id` |
| AstHelpers.ArgBindings | flake8_variables_names/ast_helpers.py:35-38 | the loop yields exactly one `(arg.arg, arg)` per parameter, in order |
| AstHelpers.GetVarNamesFromFuncdef | flake8_variables_names/ast_helpers.py:33-39 | one binding per plain positional parameter, in declaration order, carrying that parameter and its name |
| ExtractionProperties.FuncdefIgnoresOtherParameters | flake8_variables_names/ast_helpers.py:35 | positional-only, `*args`, keyword-only and `**kwargs` parameters change nothing; no plain positional parameters means no bindings |
| AstHelpers.DirectNames | flake8_variables_names/ast_helpers.py:46 | no more bindings than elements; a binding exists for each direct `Name` element and for nothing else |
| AstHelpers.GetVarNamesFromFor | flake8_variables_names/ast_helpers.py:42-47 | a name target gives one binding to itself; a tuple target gives bindings for exactly its direct name elements, no more bindings than elements; any other target gives none |
| ExtractionProperties.DirectNamesAppend | flake8_variables_names/ast_helpers.py:46 | the tuple-element filter distributes over concatenation |
| ExtractionProperties.DirectNamesInOrder | flake8_variables_names/ast_helpers.py:46 | the origins of the bindings are a subsequence of the tuple's elements, so their order is kept |
| ExtractionProperties.ForTupleTargetInOrder | flake8_variables_names/ast_helpers.py:45-46 | a tuple target gives exactly the element filter's bindings, and their origins are the tuple's elements in order |
| ExtractionProperties.ForTargetIsOneLevelDeep | flake8_variables_names/ast_helpers.py:43-47 | `for k, (v1, v2) in ...` binds only `k`, while the same target in an assignment binds `k`, `v1`, `v2` |
| AstHelpers.Assignments | flake8_variables_names/ast_helpers.py:52 | a node is kept if and only if it is a walked `Assign` or `AnnAssign` node; a one-node walk is kept whole or dropped whole |
| ExtractionProperties.AssignmentsAppend | flake8_variables_names/ast_helpers.py:52 | the filter distributes over concatenation, so with the one-node case it keeps every occurrence in walk order |
| AstHelpers.FunctionDefs | flake8_variables_names/ast_helpers.py:54 | a node is kept if and only if it is a walked `FunctionDef` node; a one-node walk is kept whole or dropped whole |
| ExtractionProperties.FunctionDefsAppend | flake8_variables_names/ast_helpers.py:54 | the filter distributes over concatenation, so with the one-node case it keeps every occurrence in walk order |
| AstHelpers.Fors | flake8_variables_names/ast_helpers.py:56 | a node is kept if and only if it is a walked `For` node; a one-node walk is kept whole or dropped whole |
| ExtractionProperties.ForsAppend | flake8_variables_names/ast_helpers.py:56 | the filter distributes over concatenation, so with the one-node case it keeps every occurrence in walk order |
| AstHelpers.AssignmentGroup | flake8_variables_names/ast_helpers.py:52-53 | filter, map and `flat` give each assignment's bindings in walk order |
| AstHelpers.FuncdefGroup | flake8_variables_names/ast_helpers.py:54-55 | filter, map and `flat` give each definition's bindings in walk order |
| AstHelpers.ForGroup | flake8_variables_names/ast_helpers.py:56-57 | filter, map and `flat` give each loop's bindings in walk order |
| AstHelpers.AssignmentGroupIsReference | flake8_variables_names/ast_helpers.py:52-53 | the assignment group equals the one-pass reference definition |
| AstHelpers.FuncdefGroupIsReference | flake8_variables_names/ast_helpers.py:54-55 | the definition group equals the one-pass reference definition |
| AstHelpers.ForGroupIsReference | flake8_variables_names/ast_helpers.py:56-57 | the loop group equals the one-pass reference definition |
| AstHelpers.ExtractAllVariableNames | flake8_variables_names/ast_helpers.py:50-58 | the result is the assignment bindings, then the definition bindings, then the loop bindings, each group in walk order |
| AstHelpers.ExtractAllConsistent | flake8_variables_names/ast_helpers.py:50-58 | every binding's identifier is the one spelled by its origin node or parameter |
| AstHelpers.GroupsConsistent | flake8_variables_names/ast_helpers.py:52-57 | every binding of each group carries its origin's identifier |
| ExtractionProperties.AssignmentBindingsAppend | flake8_variables_names/ast_helpers.py:52-53 | assignment bindings follow the walk: a split walk gives the concatenated groups |
| ExtractionProperties.FuncdefBindingsAppend | flake8_variables_names/ast_helpers.py:54-55 | definition bindings follow the walk |
| ExtractionProperties.ForBindingsAppend | flake8_variables_names/ast_helpers.py:56-57 | loop bindings follow the walk |
| ExtractionProperties.WalkSplit | flake8_variables_names/ast_helpers.py:50-58 | for a split walk the result is both halves' assignment bindings, then both halves' definition bindings, then both halves' loop bindings |
| ExtractionProperties.SwapAcrossGroups | flake8_variables_names/ast_helpers.py:50-58 | swapping two adjacent walked nodes of different groups leaves the result unchanged, so groups are not interleaved by position |
| ExtractionProperties.WalkOrderWithinGroups | flake8_variables_names/ast_helpers.py:52-53 | on walks holding no function definition and no `for` loop (roots, name nodes and other nodes allowed), the result for `a + b` is the result for `a` followed by the result for `b` |
| ExtractionProperties.OneOfEachGroup | flake8_variables_names/ast_helpers.py:50-58 | a walk whose filters pick out exactly one assignment, one definition and one loop, in any order and among any other nodes, gives assignment ++ definition ++ loop bindings |
| ListHelpers.Flat | flake8_variables_names/ast_helpers.py:53 | the length of the concatenation is the sum of the lengths |
| ListHelpers.FlatMembers | flake8_variables_names/ast_helpers.py:53 | an element is in the concatenation if and only if it is in one of the lists |
| ListHelpers.FlatAppend | flake8_variables_names/ast_helpers.py:53 | `flat(a + b) == flat(a) + flat(b)` |
| ListHelpers.Map | flake8_variables_names/ast_helpers.py:53 | the comprehension keeps length and applies the function at each position |
| ListHelpers.MapAppend | flake8_variables_names/ast_helpers.py:53 | the comprehension distributes over concatenation |
| Scenarios.ChainedAssignmentExample | flake8_variables_names/ast_helpers.py:10-14 | `a = b = 1` binds `a` then `b` |
| Scenarios.StarredDestructuringExample | flake8_variables_names/ast_helpers.py:17-23 | `a, *rest = ...` binds `a` then `rest` |
| Scenarios.UnrecognisedTargetsExample | flake8_variables_names/ast_helpers.py:24 | `[a, b] = ...` and `self.x = ...` bind nothing |
| Scenarios.AnnotatedAssignmentExample | flake8_variables_names/ast_helpers.py:15-16 | `x: int = 1` binds `x` alone |
| Scenarios.FuncdefExample | flake8_variables_names/ast_helpers.py:33-39 | `def f(a, b)` binds `a`, `b`; `def g(*args, **kwargs)` binds nothing |
| Scenarios.ForPairExample | flake8_variables_names/ast_helpers.py:45-46 | `for k, v in items` binds `k` then `v` |
| Scenarios.WholeModuleExample | flake8_variables_names/ast_helpers.py:50-58 | for a module of `x = 1`, `def f(a): pass`, `for i in y: pass`, walked breadth-first together with its name, parameter-list, `pass` and context nodes, the result is `x`, then `a`, then `i` |

## Left out

- `ast.walk`: the traversal is a standard-library primitive. The walked nodes are a parameter of `ExtractAllVariableNames`. Bodies of definitions and loops therefore carry no children in the model.
- `flat` from `list_helpers`: that module is not part of this model. `ListHelpers.Flat` assumes it is plain in-order list concatenation.
- Parsing of Python source, the flake8 plugin registration, its options and reporting, and the naming rules that consume the bindings.
- Node identity: origin nodes are compared structurally, not by reference. Two textually identical names are equal in the model.
- Node fields the extractor never reads are omitted, among them: `Name.ctx`, `AnnAssign.value` and `simple`, `Assign.type_comment`, `arg.annotation`, parameter defaults, decorators, return annotations, `For.body`/`orelse`/`type_comment`, and the location attributes (`lineno`, `col_offset`, `end_lineno`, `end_col_offset`). An origin node therefore identifies the binding construct but carries no source position.
- `AsyncFunctionDef` and `AsyncFor`: the source's `isinstance` tests do not match them, so they belong to `Other` here and bind nothing.
- Idempotence: calling the extractor twice on the same walk gives the same result. Every member is a pure function, so no separate lemma states it.
