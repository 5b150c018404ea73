# graphql-shape, modelled in Dafny

`graphql-shape` lets a GraphQL query carry post-processing instructions.
A directive such as `@shape(slice: [0, -1], path: "$.name")` on a field is
compiled out of the query. The compiler returns the query without those
directives, plus an ordered list of transform rules. Each rule is an object
holding the directive's arguments and a `key`: the dotted response path of
the field it sat on, built from aliases where present and names otherwise.
`transform` later replays the rules against the JSON response. For each
rule it:

- reads the value at `key`;
- selects a JSONPath from it (`$` by default);
- unless the selection is `null`, applies the rule's remaining entries in
  order, each as a method call on the previous result (`each` maps methods
  over an array);
- writes the result back at `key`.

A companion library (`src/functions.js`) supplies the operations rules
usually name:

- the pair switches `eq/ne/gt/gte/lt/lte`;
- membership `in/nin`;
- the boolean folds `not/or/and`;
- `default` and `pick`;
- the in-place array mutators `push/pop/shift/unshift`.

The project is organised as follows:

- `js_value.dfy` (`JsValue`): JavaScript values. Objects are ordered member
  lists, so the insertion order of `Object.assign` and `Object.entries` is
  visible. The module also defines property reads that throw on
  `null`/`undefined`, property-key conversion, and `join`/`split`.
- `util.dfy` (`Util`): the utility-library helpers the code relies on,
  defined explicitly. These are `ensureArray`, `uvl`, `pairs`, one-level
  `flat`, and the `reduce` + `Object.assign` idiom.
- `dotted_path.dfy` (`DottedPath`): plain dotted-path `get`/`set`.
- `graphql_ast.dfy` (`GraphQLAst`): the part of a GraphQL document the
  compiler walks, and the removal of directives by name. That includes the
  directives on variable definitions, which `visit` reaches before the
  operation's own directives.
- `shape_compiler.dfy` (`ShapeCompiler`): `#resolveNodeValue`, and the
  compiler itself. The compiler is a `Visitor` class whose fields are the
  walk's mutable state (path stack, capture target, fragment flag, rule
  lists), with one method per callback plus the depth-first traversal.
  Each method is proved against a `Walk*` function on `WalkState` values.
  Those functions are then proved equal to an independent, stateless
  reference definition (`SelectionRules`, `OperationRules`,
  `FragmentTable`).
- `shape_transform.dfy` (`ShapeTransform`): the rule loop, as methods over
  a mutable `JsonTree`, proved against the function `Run`, and `define`.
  The JSONPath engine and JavaScript's method dispatch are parameters; both
  may throw, and an exception stops the loop.
- `functions.dfy` (`Functions`): the operation library. The array mutators
  are methods of a `JsArray` class that changes its elements in place.

The model follows the code where the shipped tests expect more than the
code does:

- rules are recorded in document pre-order, not reversed;
- `parse` returns only the query and the main rule list, not the fragment
  table;
- a fragment spread is not expanded;
- rules recorded inside a fragment definition get the key `""`, because
  fields there push nothing onto the empty path stack.

## Model

| member | source | states |
|---|---|---|
| JsValue.Put | src/GraphQLShape.js:42 | `Object.assign(obj, {[k]: v})`: `k` reads back as `v`, every other key reads as before, and an existing key keeps its position while a new one goes last |
| JsValue.PutLookup | src/GraphQLShape.js:42 | assigning a property the value it already has leaves the object unchanged |
| JsValue.SplitJoin | src/GraphQLShape.js:45 | joining path segments that contain no `.` and splitting the result again returns the segments |
| JsValue.JoinSplit | src/GraphQLShape.js:45 | every string is the join of its split |
| Util.Pairs | src/functions.js:24 | `Util.pairs` makes ceil(n/2) groups |
| Util.PairAt | src/functions.js:24 | group `i` holds exactly elements `2i` and, when present, `2i+1` |
| Util.PairsConcat | src/functions.js:24 | the groups concatenate back to the arguments: pairing loses and adds nothing |
| Util.PairsAppend | src/functions.js:24 | an even-length prefix is paired independently of what follows |
| Util.FlatMembers | src/functions.js:13 | `x` is in `args.flat()` iff it is in `ensureArray` of some argument |
| Util.Assign | src/GraphQLShape.js:39-43 | the reduce over `Object.assign` yields each name once, and exactly the names of the input |
| Util.AssignSnoc | src/GraphQLShape.js:39-43 | one more element of the reduce is one more `Object.assign` |
| Util.AssignLast | src/GraphQLShape.js:39-43 | a name given several times keeps the value of its last occurrence |
| DottedPath.SetChild | src/GraphQLShape.js:119 | one step of a write: below the first key of a writable path lies the write of the rest of it |
| DottedPath.GetSet | src/GraphQLShape.js:119 | after `set(data, key, x)` along a writable path, `get(data, key)` is `x` |
| DottedPath.SetGet | src/GraphQLShape.js:97-119 | writing back what `get` read along an existing path leaves the data unchanged |
| DottedPath.SetLeavesSiblings | src/GraphQLShape.js:119 | a write below one member of an object leaves what lies below every other member unchanged |
| GraphQLAst.StripSelectionDirectives | src/GraphQLShape.js:73-74 | a stripped selection holds its directives without those called `name`, in order |
| GraphQLAst.StripSelectionsDirectives | src/GraphQLShape.js:73-74 | the same for a selection set |
| GraphQLAst.StripVariablesDirectives | src/GraphQLShape.js:73-74 | stripped variable definitions hold their directives without those called `name`, in order |
| GraphQLAst.StripDefinitionDirectives | src/GraphQLShape.js:73-74 | a stripped definition holds the directives of its variable definitions, its own and its selections', without those called `name`, in that order |
| GraphQLAst.StripDefinitionsDirectives | src/GraphQLShape.js:73-74 | the same for a list of definitions |
| GraphQLAst.StripDocumentDirectives | src/GraphQLShape.js:73-74 | the printed document keeps every other directive, in order, and no directive called `name` |
| GraphQLAst.WithoutOmits | src/GraphQLShape.js:73-74 | filtering removes exactly the directives called `name` and keeps every other one |
| GraphQLAst.StripNothing | src/GraphQLShape.js:22-88 | a document without a directive called `name` prints unchanged |
| GraphQLAst.WithoutNothing | src/GraphQLShape.js:73-74 | a directive list without `name` is kept whole |
| GraphQLAst.StripSelectionNothing | src/GraphQLShape.js:73-74 | a selection without `name` is kept whole |
| GraphQLAst.StripSelectionsNothing | src/GraphQLShape.js:73-74 | a selection set without `name` is kept whole |
| GraphQLAst.StripVariablesNothing | src/GraphQLShape.js:73-74 | variable definitions without `name` are kept whole |
| GraphQLAst.StripDefinitionsNothing | src/GraphQLShape.js:73-74 | definitions without `name` are kept whole |
| ShapeCompiler.ResolveNodeValue | src/GraphQLShape.js:125-134 | never undefined; null exactly for `NullValue`; a list resolves element by element to an array of the same length; an object literal resolves to an object with distinct names; a numeric literal stays its source text, a string |
| ShapeCompiler.ResolveObjectField | src/GraphQLShape.js:131 | in an object literal a field name given twice keeps its last value |
| ShapeCompiler.ResolveObjectNames | src/GraphQLShape.js:131 | an object literal resolves to exactly the names of its fields |
| ShapeCompiler.ResolveMembers | src/GraphQLShape.js:39-43 | one named value per directive argument (or object field), in source order, under the same name |
| ShapeCompiler.ResolveMembersSnoc | src/GraphQLShape.js:39-43 | one more argument resolves to one more named value |
| ShapeCompiler.ResolveArguments | src/GraphQLShape.js:39-43 | the `reduce` loop builds exactly the `Object.assign` fold of the resolved arguments |
| ShapeCompiler.Capture | src/GraphQLShape.js:45 | a rule's `key` is the path stack joined by `.`, overriding any argument named `key`; the rule holds each name once |
| ShapeCompiler.CaptureArgument | src/GraphQLShape.js:39-45 | an argument other than `key` holds the resolved value of its last occurrence |
| ShapeCompiler.CaptureNames | src/GraphQLShape.js:39-45 | a rule's names are exactly the argument names plus `key` |
| ShapeCompiler.DirectiveRulesAppend | src/GraphQLShape.js:37-47 | the rules of two directive runs are the rules of each, in order |
| ShapeCompiler.AppendAllTwice | src/GraphQLShape.js:45 | two pushes onto the current target equal one push of both |
| ShapeCompiler.WalkDirectivesAppends | src/GraphQLShape.js:37-47 | walking a directive list appends one rule per directive called `name`, in order, keyed by the current path, to the current target and nowhere else |
| ShapeCompiler.WalkVariablesAppends | src/GraphQLShape.js:37-47 | walking the variable definitions appends the rules of their directives, definition by definition, to the current target |
| ShapeCompiler.WalkHeadAppends | src/GraphQLShape.js:22-47 | a definition's variable-definition directives are captured before its own directives, both keyed by the current path |
| ShapeCompiler.WalkSelectionInOperation | src/GraphQLShape.js:22-88 | outside fragments a selection leaves the path stack as it found it and appends exactly its pre-order reference rules to `transforms` |
| ShapeCompiler.WalkInlineInOperation | src/GraphQLShape.js:22-88 | the same for an inline fragment: its own rules, then those of its selections |
| ShapeCompiler.WalkFieldInOperation | src/GraphQLShape.js:49-79 | a field pushes its alias or else its name, records its own rules before those below it, and pops the key again |
| ShapeCompiler.WalkSelectionsInOperation | src/GraphQLShape.js:22-88 | a selection set appends the rules of its selections in order and keeps the stack balanced |
| ShapeCompiler.WalkSelectionInFragment | src/GraphQLShape.js:32-52 | inside a fragment definition fields push nothing, so every rule is keyed `""` and goes to the fragment's list |
| ShapeCompiler.WalkSelectionsInFragment | src/GraphQLShape.js:32-52 | the same for a selection set |
| ShapeCompiler.WalkDefinitionTopLevel | src/GraphQLShape.js:32-35 | at top level an operation adds its rules to `transforms`; a fragment definition replaces its own entry in the fragment table and leaves `transforms`, the stack and the target as they were |
| ShapeCompiler.WalkOperationTopLevel | src/GraphQLShape.js:22-88 | an operation appends the rules of its variable definitions' directives, then of its own directives (all keyed `""`), then its selection rules, to `transforms` |
| ShapeCompiler.FragmentBody | src/GraphQLShape.js:32-35 | a fragment's body appends all its rules, variable definitions first, in order, to the fragment's list |
| ShapeCompiler.AppendAfterEnter | src/GraphQLShape.js:33 | entering a fragment resets its list, so rules appended afterwards form the whole entry |
| ShapeCompiler.WalkFragmentTopLevel | src/GraphQLShape.js:68-71 | after a fragment definition, capture is back on `transforms` and the fragment flag is off |
| ShapeCompiler.WalkTopLevelStep | src/GraphQLShape.js:22-88 | walking one more definition at top level is the reference step |
| ShapeCompiler.TopLevelAfterStep | src/GraphQLShape.js:22-88 | the reference result of a definition list unfolds one definition at a time |
| ShapeCompiler.WalkDefinitionsTopLevel | src/GraphQLShape.js:16-92 | walking definitions at top level yields the operations' rules in document order and the fragment table, and returns to top level |
| ShapeCompiler.WalkDocument | src/GraphQLShape.js:16-92 | from the initial state, the walk of a document ends with an empty stack, capture on `transforms`, `transforms` equal to the reference rules, and the fragment table |
| ShapeCompiler.Visitor.constructor | src/GraphQLShape.js:17-20 | the walk starts with an empty stack, empty lists, capture on `transforms`, outside fragments |
| ShapeCompiler.Visitor.EnterFragmentDefinition | src/GraphQLShape.js:32-35 | entering a fragment definition makes `fragments[name]` a fresh list and the capture target, and sets the fragment flag |
| ShapeCompiler.Visitor.LeaveFragmentDefinition | src/GraphQLShape.js:68-71 | leaving it clears the flag and makes `transforms` the target again |
| ShapeCompiler.Visitor.EnterDirective | src/GraphQLShape.js:37-47 | a directive called `name` pushes its captured rule onto the current target; any other directive changes nothing |
| ShapeCompiler.Visitor.EnterField | src/GraphQLShape.js:49-55 | outside fragments a field pushes its alias, else its name |
| ShapeCompiler.Visitor.LeaveField | src/GraphQLShape.js:77-80 | leaving a field pops the stack; popping an empty stack does nothing |
| ShapeCompiler.Visitor.VisitDirectives | src/GraphQLShape.js:37-47 | the enter callbacks over a directive list perform the reference walk, and the leave callback deletes exactly the directives called `name` |
| ShapeCompiler.Visitor.VisitVariables | src/GraphQLShape.js:22-88 | the traversal of the variable definitions performs their reference walk and returns them without `name` directives |
| ShapeCompiler.Visitor.VisitSelection | src/GraphQLShape.js:22-88 | the traversal of a selection performs its reference walk and returns it without `name` directives |
| ShapeCompiler.Visitor.VisitSelections | src/GraphQLShape.js:22-88 | the same for a selection set, visited in order |
| ShapeCompiler.Visitor.VisitDefinition | src/GraphQLShape.js:22-88 | the same for a definition (variable definitions, directives, selections, in that order), fragment enter and leave included |
| ShapeCompiler.Visitor.VisitDocument | src/GraphQLShape.js:22-88 | the same for the whole document |
| ShapeCompiler.Parse | src/GraphQLShape.js:16-92 | `parse` returns the document without the directives called `name` (no such directive remains) and the rules of the operations in pre-order, each keyed by its enclosing response keys |
| ShapeCompiler.Shape | src/GraphQLShape.js:7-10 | the constructor compiles with `options.name`, defaulting to `"shape"` |
| ShapeTransform.RulePath | src/GraphQLShape.js:96 | `path` is `"$"` when missing or undefined; any other given path, `null` included, is used as is |
| ShapeTransform.Rest | src/GraphQLShape.js:96 | `...rest` holds every entry of the rule except `key` and `path`, and nothing else |
| ShapeTransform.RestAppend | src/GraphQLShape.js:96 | the rest of a concatenation is the rest of each part, in order |
| ShapeTransform.RestKeepsOrder | src/GraphQLShape.js:96 | `...rest` is an order-preserving filter: each entry keeps its place among the others unless it is `key` or `path` |
| ShapeTransform.CapturedKey | src/GraphQLShape.js:45 | a recorded rule's `key`, split at `.`, gives back the response keys it was captured under (when no key contains `.`) |
| ShapeTransform.Call | src/GraphQLShape.js:111 | `value[fn](...mixed)` throws a TypeError on null or undefined, and otherwise is the method's outcome |
| ShapeTransform.CallEach | src/GraphQLShape.js:105-107 | mapping a method over an array succeeds iff it succeeds on every element, and then yields each element's result in order |
| ShapeTransform.MapCall | src/GraphQLShape.js:105-107 | `Util.map` on an array keeps its length |
| ShapeTransform.EachMethods | src/GraphQLShape.js:104-109 | `each` over an array keeps its length |
| ShapeTransform.EachOneMethod | src/GraphQLShape.js:104-109 | `each` with one method applies it to every element, and fails iff some element's call fails |
| ShapeTransform.ApplyEntriesAppend | src/GraphQLShape.js:102-115 | entries apply in insertion order, each to the previous result; an exception stops the rest |
| ShapeTransform.ApplyInOrder | src/GraphQLShape.js:102-115 | the loop reassigning `value` computes exactly the in-order application of the entries |
| ShapeTransform.NullSelection | src/GraphQLShape.js:101 | a null selection runs no operation (the result does not depend on them) and null is written back at `key` |
| ShapeTransform.SelectionThrows | src/GraphQLShape.js:98 | when JSONPath throws, the program stops at that rule with the tree as the earlier rules left it |
| ShapeTransform.RuleWritesKey | src/GraphQLShape.js:119 | a rule writes its computed value at its `key` |
| ShapeTransform.RuleLeavesSiblings | src/GraphQLShape.js:119 | a rule leaves data under other members of the same object unchanged |
| ShapeTransform.RunAppend | src/GraphQLShape.js:96-120 | rules run in list order, each on the tree the previous ones left; an exception stops the program |
| ShapeTransform.ApplyOne | src/GraphQLShape.js:96-120 | one pass of the outer `forEach` writes the rule's value back at `key`, or leaves `data` as it was and reports the exception |
| ShapeTransform.Transform | src/GraphQLShape.js:94-123 | `transform` updates `data` in place to the result of running the rules in order (an absent list counts as empty) and returns the same object |
| ShapeTransform.TransformNothing | src/GraphQLShape.js:94-122 | with no rules `transform` returns the same `data`, unchanged |
| ShapeTransform.Registry.constructor | src/GraphQLShape.js:137 | the function table starts empty |
| ShapeTransform.Registry.Define | src/GraphQLShape.js:12-14 | `define(key, fn)` sets entry `key` to `fn` and leaves every other entry alone |
| Functions.StrTrichotomy | src/functions.js:18-21 | string order is irreflexive, total and asymmetric |
| Functions.ComparatorsAgree | src/functions.js:16-21 | `ne` negates `eq`, `gt` is `lt` swapped, and on two numbers or two strings `gte` is `gt` or `eq` and `lte` is `lt` or `eq` |
| Functions.ReduceKeeps | src/functions.js:25 | once a pair has produced a value, later pairs are not consulted |
| Functions.ReduceFirst | src/functions.js:24-28 | the reduce yields the outcome of the first pair that has one |
| Functions.ReduceNone | src/functions.js:24-28 | the reduce yields undefined when no pair has an outcome |
| Functions.CompareFirst | src/functions.js:24-29 | the first pair, in order, that yields a value decides the result |
| Functions.CompareFallsThrough | src/functions.js:24-29 | when no pair yields a value the input comes back unchanged |
| Functions.CompareBare | src/functions.js:26 | with no result slot at pair 0 the raw comparator boolean is returned, `false` included |
| Functions.CompareMatch | src/functions.js:27 | a matching first pair with a result supplies that result |
| Functions.CompareDefault | src/functions.js:26 | an unpaired trailing argument after failing pairs is returned as the default; an undefined default gives back the input |
| Functions.InMembers | src/functions.js:13 | `in` holds iff some element of `ensureArray(a)` occurs in some argument, arrays spread one level |
| Functions.Nin | src/functions.js:14 | `nin` holds iff no element of `ensureArray(a)` occurs in any argument: exactly the negation of `in` |
| Functions.Not | src/functions.js:34 | `not` is true exactly on the falsy values |
| Functions.AnyTruthy | src/functions.js:35 | `some(el => el)` is true iff some element is truthy |
| Functions.AllTruthy | src/functions.js:36 | `every(el => el)` is true iff every element is truthy |
| Functions.Or | src/functions.js:35 | `or` holds iff some flattened argument is truthy; `or()` is false |
| Functions.And | src/functions.js:36 | `and` holds iff every flattened argument is truthy; `and()` is true |
| Functions.FirstPresent | src/functions.js:54 | `find(el => el != null)` is the first non-null element, and undefined iff there is none |
| Functions.DefaultKeeps | src/functions.js:54 | a present non-array value is its own default |
| Functions.DefaultFallsBack | src/functions.js:54 | a null or undefined value takes the first present flattened argument |
| Functions.PickMembers | src/functions.js:57-63 | the per-argument entries succeed iff each argument's does, and come in argument order |
| Functions.Pick | src/functions.js:57-63 | `pick` yields an object with each key once, `{}` for no arguments, and a TypeError for a null or undefined `v` once the first argument is destructured |
| Functions.PickTargets | src/functions.js:57-63 | every target name is a key, and holds `v[key]` of the last argument naming it |
| Functions.PickOnlyTargets | src/functions.js:57-63 | only target names are keys |
| Functions.PickName | src/functions.js:61-62 | a plain string argument keeps its name: `pick(v, "a")` is `{a: v.a}` |
| Functions.MutatedInverse | src/functions.js:5-9 | `pop` undoes a one-element `push`, and `shift` a one-element `unshift` |
| Functions.JsArray.Push | src/functions.js:7 | `push` appends the arguments in place and returns the new length |
| Functions.JsArray.Pop | src/functions.js:7 | `pop` removes and returns the last element in place; undefined on an empty array |
| Functions.JsArray.Shift | src/functions.js:7 | `shift` removes and returns the first element in place; undefined on an empty array |
| Functions.JsArray.Unshift | src/functions.js:7 | `unshift` prepends the arguments in place and returns the new length |
| Functions.ArrayFunction | src/functions.js:5-10 | the wrapper returns `v` itself: an array is changed in place by its method, any other value is left alone |

## Left out

- GraphQL parsing, `visit` and `print` belong to the `graphql` library. The
  model takes the document tree as input. The printed query is the tree
  with the directives removed.
- Of a variable definition only its directives are walked; its variable,
  type and default value are carried through unchanged. Arguments on
  fields and selections beyond fields, spreads and inline fragments carry
  no directives and are carried through unchanged or not represented.
- A fragment definition has variable definitions only in graphql's legacy
  fragment-variable syntax (`fragment F($x: Int) on T`). The model walks
  them like an operation's; a parser without that syntax yields none.
- The `EnumValueDefinition` and `EnumTypeDefinition` branches of
  `#resolveNodeValue` are not modelled: those nodes never occur as argument
  values.
- ShapeCompiler.ResolveNodeValue: a variable resolves to a fixed stand-in
  for its AST node (`kind` and `name`). The node's location data is not
  represented.
- `console.log(transforms)` in `parse` is output only and is not modelled.
- Calling `parse` directly without `options.name` compares directive names
  with `undefined`, so nothing is captured. Here `Parse` always takes a
  name, and `Shape` supplies the default.
- JSONPath selection is the `Selector` parameter, which returns the
  selection or the exception the engine throws. Which paths the library
  accepts and what it selects are not part of this model.
- Method dispatch `value[fn](...mixed)` and `v[mix]()` is the `Invoker`
  parameter. This covers argument spreading, and the splitting of a string
  argument into characters. Which operations a value has (strings, arrays,
  numbers) is therefore not modelled.
- ShapeTransform.Transform: the selected value is a copy. When JSONPath
  returns a part of `data` and a method mutates it in place, the in-place
  change is not captured, only the value written back at `key`.
- ShapeTransform.Transform: the lodash `get` and utility `set` are plain
  dotted paths. Bracket syntax and the utility library's broadcasting over
  arrays are not modelled. On the way down an intermediate value that is
  not an object or array is replaced by `{}`. Writing into a root that is
  not an object or array, or at an array key that is not an index within
  the array, is a no-op.
- Rule entries arrive in `Object.entries` order. JavaScript lists
  integer-like keys first; the model keeps insertion order for every key.
- A rule whose `key` is not a string is read as a single step.
- Numbers are integers. Floating point, `NaN` and `Number` coercion are not
  modelled. This is also why `add/sub/div/mul/mod` are left out.
- `filter` relies on a regular-expression helper (`Util.parseRegExp`) that
  is not part of this model.
- The pass-through wrappers `get/set/nvl/uvl/pairs/flatten/unflatten` only
  forward to libraries and are not modelled as operations. `uvl` and
  `pairs` are defined in `Util` because the comparators use them.
- ShapeTransform.MapCall: `Util.map(x, fn)` belongs to a utility library
  that is not part of this model. It is taken to call `fn` on each element
  of an array and on `x` itself otherwise, `null` and `undefined` included.
  A nullish value therefore throws on the method read. If the library
  instead returns a nullish `x` unchanged, the model throws where
  JavaScript would not.
- ShapeTransform.EachMethods: the outer `Util.map(mixed, …)` over the
  `each` entry is taken to visit `ensureArray(mixed)`, so a nullish `each`
  names the method `"null"` or `"undefined"`.
- Functions.StrLess: strings are compared code point by code point.
  JavaScript compares UTF-16 code units, which orders characters outside
  the Basic Multilingual Plane differently.
- JsValue.GetProp: a string's `length` and index reads count code points,
  not UTF-16 code units.
- Functions.In: `includes` is modelled with structural equality. JavaScript
  compares arrays and objects by identity, so the model can report
  membership of an equal but distinct array or object where JavaScript does
  not.
- Functions.Nin: the same structural comparison as `Functions.In`.
- Functions.Holds: `===` on arrays and objects is modelled as structural
  equality. JavaScript compares their identity.
- Functions.Holds: the relational comparators order only two numbers or two
  strings. JavaScript's coercion for mixed types is not modelled, and such
  comparisons are false.
- Functions.Pick: reading `v[key]` on a string, number or boolean follows
  the property rules in `JsValue.GetProp`. Inherited prototype members of
  objects are not represented.
- Functions.ArrayFunction: only arrays have the four methods here. An
  object that defines its own `push` is treated as lacking it.
- `GraphQLShape.functions` is modelled as a map filled by `define`.
  `transform` does not consult it, and neither does the model.
