/**
 * `GraphQLShape.parse` and `new GraphQLShape(...)`: a depth-first walk over
 * the query document that records one transform rule per `@shape`
 * directive, addressed by the response keys of the enclosing fields, and
 * deletes those directives from the document it returns.
 *
 * The walk keeps mutable state (a stack of response keys, the list rules
 * go to, and whether it is inside a fragment definition); `Visitor` holds
 * that state and its callbacks, and the functions `On*` and `Walk*` give the
 * effect of each callback and of each walk on a `WalkState` value.
 */
module ShapeCompiler {
  import opened JsValue
  import opened Util
  import opened GraphQLAst

  /** A recorded rule: an object of directive arguments plus `key`. */
  type Rule = seq<Member>

  /** The directive name used when the caller names none. */
  const DefaultDirectiveName: string := "shape"

  // ----- Argument values (#resolveNodeValue) -----

  /** A variable has no `.value`, so the AST node itself is returned. */
  function VariableNode(x: string): Value {
    Obj([Member("kind", Str("Variable")),
         Member("name", Obj([Member("kind", Str("Name")), Member("value", Str(x))]))])
  }

  /**
   * The plain value of an argument-value node: null, lists element by
   * element, object literals field by field, every other literal its raw
   * source text (so `0` becomes the string "0").
   */
  function ResolveNodeValue(n: ValueNode): (r: Value)
    ensures r != Undefined
    ensures r == Null <==> n == NullValue
    ensures n.ListValue? ==> r.Arr? && |r.items| == |n.values|
    ensures n.ObjectValue? ==> r.Obj? && Distinct(Names(r.members))
    ensures n.IntValue? || n.FloatValue? ==> r == Str(n.text)
    decreases n
  {
    match n
    case NullValue => Null
    case IntValue(t) => Str(t)
    case FloatValue(t) => Str(t)
    case StringValue(t) => Str(t)
    case BooleanValue(b) => Bool(b)
    case EnumValue(t) => Str(t)
    case Variable(x) => VariableNode(x)
    case ListValue(vs) => Arr(seq(|vs|, i requires 0 <= i < |vs| => ResolveNodeValue(vs[i])))
    case ObjectValue(fs) => Obj(Assign(ResolveMembers(fs)))
  }

  /** Each argument or object field, resolved, in source order. */
  function ResolveMembers(fs: seq<NamedValue>): (r: seq<Member>)
    ensures |r| == |fs|
    ensures forall i | 0 <= i < |fs| :: r[i].name == fs[i].name
    decreases fs
  {
    seq(|fs|, i requires 0 <= i < |fs| => Member(fs[i].name, ResolveNodeValue(fs[i].value)))
  }

  /** In an object literal a field name given twice keeps its last value. */
  lemma ResolveObjectField(fs: seq<ObjectField>, i: nat)
    requires i < |fs| && forall j | i < j < |fs| :: fs[j].name != fs[i].name
    ensures Lookup(ResolveNodeValue(ObjectValue(fs)).members, fs[i].name) == ResolveNodeValue(fs[i].value)
  {
    var ms := ResolveMembers(fs);
    assert LastNamed(ms, i);
    AssignLast(ms, i);
  }

  /** An object literal resolves to exactly the names of its fields. */
  lemma ResolveObjectNames(fs: seq<ObjectField>, k: string)
    ensures k in Names(ResolveNodeValue(ObjectValue(fs)).members) <==> exists i | 0 <= i < |fs| :: fs[i].name == k
  {
    var ms := ResolveMembers(fs);
    assert forall i | 0 <= i < |ms| :: Names(ms)[i] == fs[i].name;
    assert k in Names(ms) <==> exists i | 0 <= i < |ms| :: Names(ms)[i] == k;
  }

  // ----- Capturing one directive -----

  lemma ResolveMembersSnoc(fs: seq<NamedValue>, i: nat)
    requires i < |fs|
    ensures ResolveMembers(fs[..i + 1]) ==
            ResolveMembers(fs[..i]) + [Member(fs[i].name, ResolveNodeValue(fs[i].value))]
  {
  }

  /** The `reduce` over a directive's arguments, building its argument object. */
  method ResolveArguments(args: seq<Argument>) returns (r: seq<Member>)
    ensures r == Assign(ResolveMembers(args))
  {
    r := [];
    var i := 0;
    while i < |args|
      invariant 0 <= i <= |args|
      invariant r == Assign(ResolveMembers(args[..i]))
    {
      var m := Member(args[i].name, ResolveNodeValue(args[i].value));
      ResolveMembersSnoc(args, i);
      AssignSnoc(ResolveMembers(args[..i]), m);
      r := Put(r, m.name, m.val);
      i := i + 1;
    }
    assert args[..i] == args;
  }

  /**
   * `{ ...args, key: paths.join('.') }`: every argument name once, and
   * `key` set to the joined path whether or not an argument was called `key`.
   */
  function Capture(d: Directive, paths: seq<string>): (r: Rule)
    ensures Lookup(r, "key") == Str(Join(paths, '.'))
    ensures Distinct(Names(r))
  {
    Put(Assign(ResolveMembers(d.arguments)), "key", Str(Join(paths, '.')))
  }

  /** An argument other than `key` keeps the value of its last occurrence. */
  lemma CaptureArgument(d: Directive, paths: seq<string>, i: nat)
    requires i < |d.arguments| && d.arguments[i].name != "key"
    requires forall j | i < j < |d.arguments| :: d.arguments[j].name != d.arguments[i].name
    ensures Lookup(Capture(d, paths), d.arguments[i].name) == ResolveNodeValue(d.arguments[i].value)
  {
    var ms := ResolveMembers(d.arguments);
    assert LastNamed(ms, i);
    AssignLast(ms, i);
  }

  /** A rule has exactly the argument names, plus `key`. */
  lemma CaptureNames(d: Directive, paths: seq<string>, k: string)
    ensures k in Names(Capture(d, paths)) <==> k == "key" || exists i | 0 <= i < |d.arguments| :: d.arguments[i].name == k
  {
    var ms := ResolveMembers(d.arguments);
    assert forall i | 0 <= i < |ms| :: Names(ms)[i] == d.arguments[i].name;
    assert k in Names(ms) <==> exists i | 0 <= i < |ms| :: Names(ms)[i] == k;
  }

  // ----- The walk state and the effect of each callback -----

  /** Where captured rules go: the main list or the list of one fragment. */
  datatype Target = Transforms | FragmentRules(fragment: string)

  datatype WalkState = WalkState(
    paths: seq<string>,
    transforms: seq<Rule>,
    fragments: map<string, seq<Rule>>,
    target: Target,
    isFragment: bool)

  const Initial: WalkState := WalkState([], [], map[], Transforms, false)

  /** `Array.prototype.pop` on the path stack: no effect when it is empty. */
  function Pop(p: seq<string>): seq<string> {
    if p == [] then [] else p[..|p| - 1]
  }

  function TargetList(st: WalkState): seq<Rule> {
    match st.target
    case Transforms => st.transforms
    case FragmentRules(n) => if n in st.fragments then st.fragments[n] else []
  }

  /** `target.push(...rules)` for several rules at once. */
  function AppendAll(st: WalkState, rules: seq<Rule>): WalkState {
    if rules == [] then st
    else match st.target
    case Transforms => st.(transforms := st.transforms + rules)
    case FragmentRules(n) => st.(fragments := st.fragments[n := TargetList(st) + rules])
  }

  function OnEnterField(st: WalkState, f: Selection): WalkState
    requires f.Field?
  {
    if st.isFragment then st else st.(paths := st.paths + [ResponseKey(f)])
  }

  function OnLeaveField(st: WalkState): WalkState {
    st.(paths := Pop(st.paths))
  }

  function OnEnterFragment(st: WalkState, fragment: string): WalkState {
    st.(fragments := st.fragments[fragment := []], target := FragmentRules(fragment), isFragment := true)
  }

  function OnLeaveFragment(st: WalkState): WalkState {
    st.(isFragment := false, target := Transforms)
  }

  function OnEnterDirective(st: WalkState, d: Directive, name: string): WalkState {
    if d.name == name then AppendAll(st, [Capture(d, st.paths)]) else st
  }

  // ----- The effect of the whole walk -----

  function WalkDirectives(st: WalkState, ds: seq<Directive>, name: string): WalkState
    decreases ds
  {
    if ds == [] then st else WalkDirectives(OnEnterDirective(st, ds[0], name), ds[1..], name)
  }

  function WalkSelection(st: WalkState, s: Selection, name: string): WalkState
    decreases s
  {
    match s
    case Field(_, _, _, ds, ss) =>
      OnLeaveField(WalkSelections(WalkDirectives(OnEnterField(st, s), ds, name), ss, name))
    case FragmentSpread(_, ds) => WalkDirectives(st, ds, name)
    case InlineFragment(_, ds, ss) => WalkSelections(WalkDirectives(st, ds, name), ss, name)
  }

  function WalkSelections(st: WalkState, ss: seq<Selection>, name: string): WalkState
    decreases ss
  {
    if ss == [] then st else WalkSelections(WalkSelection(st, ss[0], name), ss[1..], name)
  }

  /** The directives of each variable definition, definition by definition. */
  function WalkVariables(st: WalkState, vs: seq<VariableDefinition>, name: string): WalkState
    decreases vs
  {
    if vs == [] then st else WalkVariables(WalkDirectives(st, vs[0].directives, name), vs[1..], name)
  }

  /** A definition's variable definitions, then its directives, then its selections. */
  function WalkBody(st: WalkState, d: Definition, name: string): WalkState {
    WalkSelections(WalkDirectives(WalkVariables(st, d.variables, name), d.directives, name), d.selections, name)
  }

  function WalkDefinition(st: WalkState, d: Definition, name: string): WalkState {
    match d
    case OperationDefinition(_, _, _, _, _) => WalkBody(st, d, name)
    case FragmentDefinition(n, _, _, _, _) => OnLeaveFragment(WalkBody(OnEnterFragment(st, n), d, name))
  }

  function WalkDefinitions(st: WalkState, defs: seq<Definition>, name: string): WalkState
    decreases defs
  {
    if defs == [] then st else WalkDefinitions(WalkDefinition(st, defs[0], name), defs[1..], name)
  }

  // ----- Reference definition of the rules a document yields -----

  /** One rule per directive called `name`, in order, each keyed by `paths`. */
  /** The rule one directive yields: its capture when it has the configured name. */
  function DirectiveRule(d: Directive, paths: seq<string>, name: string): seq<Rule> {
    if d.name == name then [Capture(d, paths)] else []
  }

  function DirectiveRules(ds: seq<Directive>, paths: seq<string>, name: string): seq<Rule> {
    if ds == [] then [] else DirectiveRule(ds[0], paths, name) + DirectiveRules(ds[1..], paths, name)
  }

  /**
   * The rules below a selection, given the response keys of the fields
   * around it: a field's own rules, keyed by the path through that field,
   * come before the rules of everything inside it (pre-order).
   */
  function SelectionRules(s: Selection, prefix: seq<string>, name: string): seq<Rule>
    decreases s
  {
    match s
    case Field(_, _, _, ds, ss) =>
      var p := prefix + [ResponseKey(s)];
      DirectiveRules(ds, p, name) + SelectionsRules(ss, p, name)
    case FragmentSpread(_, ds) => DirectiveRules(ds, prefix, name)
    case InlineFragment(_, ds, ss) => DirectiveRules(ds, prefix, name) + SelectionsRules(ss, prefix, name)
  }

  function SelectionsRules(ss: seq<Selection>, prefix: seq<string>, name: string): seq<Rule>
    decreases ss
  {
    if ss == [] then [] else SelectionRules(ss[0], prefix, name) + SelectionsRules(ss[1..], prefix, name)
  }

  /**
   * The rules an operation yields at top level: those of its variable
   * definitions' directives and its own, keyed by the empty path, then those
   * of its selections. A fragment definition yields none there.
   */
  function DefinitionRules(d: Definition, name: string): seq<Rule> {
    if d.OperationDefinition? then
      DirectiveRules(VariablesDirectives(d.variables) + d.directives, [], name) + SelectionsRules(d.selections, [], name)
    else []
  }

  /** The rules of the operations, in document order. */
  function OperationRules(defs: seq<Definition>, name: string): seq<Rule>
    decreases defs
  {
    if defs == [] then [] else DefinitionRules(defs[0], name) + OperationRules(defs[1..], name)
  }

  /** A fragment definition (re)sets its entry: its rules, every one keyed by the empty path. */
  function WithFragment(m: map<string, seq<Rule>>, d: Definition, name: string): map<string, seq<Rule>> {
    if d.FragmentDefinition? then m[d.name := DirectiveRules(DefinitionDirectives(d), [], name)] else m
  }

  /** The fragment table; a fragment defined twice keeps its last definition. */
  function FragmentTable(m: map<string, seq<Rule>>, defs: seq<Definition>, name: string): map<string, seq<Rule>>
    decreases defs
  {
    if defs == [] then m else FragmentTable(WithFragment(m, defs[0], name), defs[1..], name)
  }

  // ----- The walk agrees with the reference definition -----

  lemma {:induction false} DirectiveRulesAppend(a: seq<Directive>, b: seq<Directive>, paths: seq<string>, name: string)
    ensures DirectiveRules(a + b, paths, name) == DirectiveRules(a, paths, name) + DirectiveRules(b, paths, name)
    decreases a
  {
    if a == [] {
      assert a + b == b;
    } else {
      var head := DirectiveRule(a[0], paths, name);
      assert (a + b)[0] == a[0];
      assert (a + b)[1..] == a[1..] + b;
      DirectiveRulesAppend(a[1..], b, paths, name);
      var x, y := DirectiveRules(a[1..], paths, name), DirectiveRules(b, paths, name);
      AppendAssoc(head, x, y);
    }
  }

  lemma AppendAllTwice(st: WalkState, a: seq<Rule>, b: seq<Rule>)
    ensures AppendAll(AppendAll(st, a), b) == AppendAll(st, a + b)
  {
    match st.target
    case Transforms =>
    case FragmentRules(n) =>
      if a == [] {
        assert a + b == b;
      } else if b == [] {
        assert a + b == a;
      } else {
        var l := TargetList(st);
        var st1 := AppendAll(st, a);
        assert st1.fragments == st.fragments[n := l + a];
        assert TargetList(st1) == l + a;
        AppendAssoc(l, a, b);
        assert st.fragments[n := l + a][n := l + a + b] == st.fragments[n := l + (a + b)];
      }
  }

  /** The walk over the directives from `i` on enters `ds[i]`, then walks the rest. */
  lemma WalkDirectivesStep(st: WalkState, ds: seq<Directive>, i: nat, name: string)
    requires i < |ds|
    ensures WalkDirectives(st, ds[i..], name) == WalkDirectives(OnEnterDirective(st, ds[i], name), ds[i + 1..], name)
  {
    assert ds[i..][0] == ds[i] && ds[i..][1..] == ds[i + 1..];
  }

  /** The directives kept from `i` on: `ds[i]` unless it is called `name`, then the rest. */
  lemma WithoutAt(ds: seq<Directive>, i: nat, name: string)
    requires i < |ds|
    ensures Without(ds[i..], name) == (if ds[i].name == name then [] else [ds[i]]) + Without(ds[i + 1..], name)
  {
    var t := ds[i..];
    assert t[0] == ds[i] && t[1..] == ds[i + 1..];
  }

  /** The directives kept so far grow by `ds[i]` unless it is called `name`. */
  lemma WithoutStep(ds: seq<Directive>, i: nat, name: string, kept: seq<Directive>)
    requires i < |ds|
    ensures kept + Without(ds[i..], name) == (kept + if ds[i].name == name then [] else [ds[i]]) + Without(ds[i + 1..], name)
  {
    WithoutAt(ds, i, name);
    var head, rest := if ds[i].name == name then [] else [ds[i]], Without(ds[i + 1..], name);
    AppendAssoc(kept, head, rest);
  }

  /** Each captured directive is appended to the current target, keyed by the path stack. */
  lemma {:induction false} WalkDirectivesAppends(st: WalkState, ds: seq<Directive>, name: string)
    ensures WalkDirectives(st, ds, name) == AppendAll(st, DirectiveRules(ds, st.paths, name))
    decreases ds
  {
    if ds != [] {
      var first := DirectiveRule(ds[0], st.paths, name);
      var rest := DirectiveRules(ds[1..], st.paths, name);
      var st' := AppendAll(st, first);
      assert OnEnterDirective(st, ds[0], name) == st';
      assert st'.paths == st.paths;
      WalkDirectivesAppends(st', ds[1..], name);
      AppendAllTwice(st, first, rest);
      assert DirectiveRules(ds, st.paths, name) == first + rest;
    }
  }

  /** Each variable definition's captured directives are appended in turn. */
  lemma {:induction false} WalkVariablesAppends(st: WalkState, vs: seq<VariableDefinition>, name: string)
    ensures WalkVariables(st, vs, name) == AppendAll(st, DirectiveRules(VariablesDirectives(vs), st.paths, name))
    decreases vs
  {
    if vs != [] {
      var a := DirectiveRules(vs[0].directives, st.paths, name);
      WalkDirectivesAppends(st, vs[0].directives, name);
      var st' := AppendAll(st, a);
      assert st'.paths == st.paths;
      WalkVariablesAppends(st', vs[1..], name);
      AppendAllTwice(st, a, DirectiveRules(VariablesDirectives(vs[1..]), st.paths, name));
      DirectiveRulesAppend(vs[0].directives, VariablesDirectives(vs[1..]), st.paths, name);
    }
  }

  /** A definition's head (variable definitions, then its own directives) appends their captures in that order. */
  lemma WalkHeadAppends(st: WalkState, d: Definition, name: string)
    ensures WalkDirectives(WalkVariables(st, d.variables, name), d.directives, name) ==
            AppendAll(st, DirectiveRules(VariablesDirectives(d.variables) + d.directives, st.paths, name))
  {
    var vd := VariablesDirectives(d.variables);
    WalkVariablesAppends(st, d.variables, name);
    var st0 := AppendAll(st, DirectiveRules(vd, st.paths, name));
    assert st0.paths == st.paths;
    WalkDirectivesAppends(st0, d.directives, name);
    AppendAllTwice(st, DirectiveRules(vd, st.paths, name), DirectiveRules(d.directives, st.paths, name));
    DirectiveRulesAppend(vd, d.directives, st.paths, name);
  }

  /** Outside fragments only the main list grows. */
  predicate InOperation(st: WalkState) {
    !st.isFragment && st.target == Transforms
  }

  /**
   * Outside fragment definitions a selection leaves the path stack as it
   * found it (each field pushes one key on entry and pops one on exit), and
   * appends exactly the reference rules for the current path.
   */
  lemma {:induction false} WalkSelectionInOperation(st: WalkState, s: Selection, name: string)
    requires InOperation(st)
    ensures WalkSelection(st, s, name) == st.(transforms := st.transforms + SelectionRules(s, st.paths, name))
    decreases s, 1
  {
    if s.Field? {
      WalkFieldInOperation(st, s, name);
    } else if s.FragmentSpread? {
      WalkDirectivesAppends(st, s.directives, name);
    } else {
      WalkInlineInOperation(st, s, name);
    }
  }

  lemma {:induction false} WalkInlineInOperation(st: WalkState, s: Selection, name: string)
    requires InOperation(st) && s.InlineFragment?
    ensures WalkSelection(st, s, name) == st.(transforms := st.transforms + SelectionRules(s, st.paths, name))
    decreases s, 0
  {
    var a, b := DirectiveRules(s.directives, st.paths, name), SelectionsRules(s.selections, st.paths, name);
    WalkDirectivesAppends(st, s.directives, name);
    var st1 := WalkDirectives(st, s.directives, name);
    assert st1 == st.(transforms := st.transforms + a);
    WalkSelectionsInOperation(st1, s.selections, name);
    AppendAssoc(st.transforms, a, b);
  }

  /** A field pushes its response key, records below it, and pops the key again. */
  lemma {:induction false} WalkFieldInOperation(st: WalkState, f: Selection, name: string)
    requires InOperation(st) && f.Field?
    ensures WalkSelection(st, f, name) == st.(transforms := st.transforms + SelectionRules(f, st.paths, name))
    decreases f, 0
  {
    var p := st.paths + [ResponseKey(f)];
    var st1 := OnEnterField(st, f);
    assert st1 == st.(paths := p);
    var a := DirectiveRules(f.directives, p, name);
    WalkDirectivesAppends(st1, f.directives, name);
    var st2 := WalkDirectives(st1, f.directives, name);
    assert st2 == st1.(transforms := st.transforms + a);
    var b := SelectionsRules(f.selections, p, name);
    WalkSelectionsInOperation(st2, f.selections, name);
    var st3 := WalkSelections(st2, f.selections, name);
    assert st3 == st1.(transforms := st.transforms + a + b);
    assert Pop(p) == st.paths;
    assert SelectionRules(f, st.paths, name) == a + b;
    AppendAssoc(st.transforms, a, b);
  }

  lemma {:induction false} WalkSelectionsInOperation(st: WalkState, ss: seq<Selection>, name: string)
    requires InOperation(st)
    ensures WalkSelections(st, ss, name) == st.(transforms := st.transforms + SelectionsRules(ss, st.paths, name))
    decreases ss, 2
  {
    if ss != [] {
      WalkSelectionInOperation(st, ss[0], name);
      var st' := WalkSelection(st, ss[0], name);
      WalkSelectionsInOperation(st', ss[1..], name);
      AppendAssoc(st.transforms, SelectionRules(ss[0], st.paths, name), SelectionsRules(ss[1..], st.paths, name));
    }
  }

  /**
   * Inside a fragment definition fields push nothing, so with an empty stack
   * every rule is keyed by the empty path and goes to the current target.
   */
  lemma {:induction false} WalkSelectionInFragment(st: WalkState, s: Selection, name: string)
    requires st.isFragment && st.paths == []
    ensures WalkSelection(st, s, name) == AppendAll(st, DirectiveRules(SelectionDirectives(s), [], name))
    decreases s
  {
    match s
    case Field(_, _, _, ds, ss) =>
      WalkDirectivesAppends(st, ds, name);
      var st2 := WalkDirectives(st, ds, name);
      WalkSelectionsInFragment(st2, ss, name);
      AppendAllTwice(st, DirectiveRules(ds, [], name), DirectiveRules(SelectionsDirectives(ss), [], name));
      DirectiveRulesAppend(ds, SelectionsDirectives(ss), [], name);
    case FragmentSpread(_, ds) =>
      WalkDirectivesAppends(st, ds, name);
    case InlineFragment(_, ds, ss) =>
      WalkDirectivesAppends(st, ds, name);
      var st2 := WalkDirectives(st, ds, name);
      WalkSelectionsInFragment(st2, ss, name);
      AppendAllTwice(st, DirectiveRules(ds, [], name), DirectiveRules(SelectionsDirectives(ss), [], name));
      DirectiveRulesAppend(ds, SelectionsDirectives(ss), [], name);
  }

  lemma {:induction false} WalkSelectionsInFragment(st: WalkState, ss: seq<Selection>, name: string)
    requires st.isFragment && st.paths == []
    ensures WalkSelections(st, ss, name) == AppendAll(st, DirectiveRules(SelectionsDirectives(ss), [], name))
    decreases ss
  {
    if ss != [] {
      WalkSelectionInFragment(st, ss[0], name);
      var a := DirectiveRules(SelectionDirectives(ss[0]), [], name);
      var st' := AppendAll(st, a);
      WalkSelectionsInFragment(st', ss[1..], name);
      AppendAllTwice(st, a, DirectiveRules(SelectionsDirectives(ss[1..]), [], name));
      DirectiveRulesAppend(SelectionDirectives(ss[0]), SelectionsDirectives(ss[1..]), [], name);
    }
  }

  /**
   * At the top of the document the stack is empty and capture goes to the
   * main list. A definition keeps it that way: an operation adds its rules
   * to the main list, a fragment definition replaces its own entry in the
   * fragment table and capture then returns to the main list.
   */
  lemma WalkDefinitionTopLevel(st: WalkState, d: Definition, name: string)
    requires InOperation(st) && st.paths == []
    ensures WalkDefinition(st, d, name) ==
            st.(transforms := st.transforms + DefinitionRules(d, name),
                fragments := WithFragment(st.fragments, d, name))
  {
    if d.OperationDefinition? {
      WalkOperationTopLevel(st, d, name);
    } else {
      WalkFragmentTopLevel(st, d, name);
    }
  }

  lemma WalkOperationTopLevel(st: WalkState, d: Definition, name: string)
    requires InOperation(st) && st.paths == [] && d.OperationDefinition?
    ensures WalkDefinition(st, d, name) == st.(transforms := st.transforms + DefinitionRules(d, name))
  {
    var a := DirectiveRules(VariablesDirectives(d.variables) + d.directives, [], name);
    var b := SelectionsRules(d.selections, [], name);
    WalkHeadAppends(st, d, name);
    var st1 := WalkDirectives(WalkVariables(st, d.variables, name), d.directives, name);
    assert st1 == st.(transforms := st.transforms + a);
    WalkSelectionsInOperation(st1, d.selections, name);
    AppendAssoc(st.transforms, a, b);
  }

  /** Inside a fragment definition its body appends the rules of all its directives. */
  lemma FragmentBody(st: WalkState, d: Definition, name: string)
    requires st.isFragment && st.paths == []
    ensures WalkBody(st, d, name) == AppendAll(st, DirectiveRules(DefinitionDirectives(d), [], name))
  {
    var head := VariablesDirectives(d.variables) + d.directives;
    var a, b := DirectiveRules(head, [], name), DirectiveRules(SelectionsDirectives(d.selections), [], name);
    WalkHeadAppends(st, d, name);
    WalkSelectionsInFragment(AppendAll(st, a), d.selections, name);
    AppendAllTwice(st, a, b);
    DirectiveRulesAppend(head, SelectionsDirectives(d.selections), [], name);
  }

  /** Rules appended right after entering a fragment form its whole entry. */
  lemma AppendAfterEnter(st: WalkState, n: string, rules: seq<Rule>)
    ensures AppendAll(OnEnterFragment(st, n), rules) ==
            OnEnterFragment(st, n).(fragments := st.fragments[n := rules])
  {
    var st1 := OnEnterFragment(st, n);
    if rules != [] {
      assert TargetList(st1) == [];
      AppendEmpty(rules);
      assert st1.fragments[n := [] + rules] == st.fragments[n := rules];
    }
  }

  lemma WalkFragmentTopLevel(st: WalkState, d: Definition, name: string)
    requires InOperation(st) && st.paths == [] && d.FragmentDefinition?
    ensures WalkDefinition(st, d, name) == st.(fragments := WithFragment(st.fragments, d, name))
  {
    var rules := DirectiveRules(DefinitionDirectives(d), [], name);
    FragmentBody(OnEnterFragment(st, d.name), d, name);
    AppendAfterEnter(st, d.name, rules);
  }

  /** The state at top level after one more definition, by the reference definition. */
  function TopLevelNext(st: WalkState, d: Definition, name: string): WalkState {
    st.(transforms := st.transforms + DefinitionRules(d, name), fragments := WithFragment(st.fragments, d, name))
  }

  /** The state at top level after a run of definitions, by the reference definition. */
  function TopLevelAfter(st: WalkState, defs: seq<Definition>, name: string): WalkState {
    st.(transforms := st.transforms + OperationRules(defs, name), fragments := FragmentTable(st.fragments, defs, name))
  }

  /** One definition more, by the walk. */
  lemma WalkTopLevelStep(st: WalkState, defs: seq<Definition>, name: string)
    requires InOperation(st) && st.paths == [] && defs != []
    ensures WalkDefinitions(st, defs, name) == WalkDefinitions(TopLevelNext(st, defs[0], name), defs[1..], name)
  {
    WalkDefinitionTopLevel(st, defs[0], name);
  }

  /** One definition more, by the reference definition. */
  lemma TopLevelAfterStep(st: WalkState, defs: seq<Definition>, name: string)
    requires defs != []
    ensures TopLevelAfter(st, defs, name) == TopLevelAfter(TopLevelNext(st, defs[0], name), defs[1..], name)
  {
    var r, rest := DefinitionRules(defs[0], name), OperationRules(defs[1..], name);
    assert OperationRules(defs, name) == r + rest;
    AppendAssoc(st.transforms, r, rest);
  }

  lemma {:induction false} WalkDefinitionsTopLevel(st: WalkState, defs: seq<Definition>, name: string)
    requires InOperation(st) && st.paths == []
    ensures WalkDefinitions(st, defs, name) == TopLevelAfter(st, defs, name)
    decreases defs
  {
    if defs != [] {
      WalkTopLevelStep(st, defs, name);
      TopLevelAfterStep(st, defs, name);
      WalkDefinitionsTopLevel(TopLevelNext(st, defs[0], name), defs[1..], name);
    }
  }

  /** The state after walking a whole document. */
  lemma WalkDocument(doc: Document, name: string)
    ensures WalkDefinitions(Initial, doc.definitions, name) ==
            WalkState([], OperationRules(doc.definitions, name),
                      FragmentTable(map[], doc.definitions, name), Transforms, false)
  {
    WalkDefinitionsTopLevel(Initial, doc.definitions, name);
    var rules := OperationRules(doc.definitions, name);
    AppendEmpty(rules);
  }

  // ----- The visitor: the walk's mutable state and its callbacks -----

  class Visitor {
    /** `options.name`. */
    const name: string
    var paths: seq<string>
    var transforms: seq<Rule>
    var fragments: map<string, seq<Rule>>
    var target: Target
    var isFragment: bool

    function State(): WalkState
      reads this
    {
      WalkState(paths, transforms, fragments, target, isFragment)
    }

    constructor (name: string)
      ensures this.name == name && State() == Initial
    {
      this.name := name;
      paths, transforms, fragments := [], [], map[];
      target, isFragment := Transforms, false;
    }

    method EnterFragmentDefinition(fragment: string)
      modifies this
      ensures State() == OnEnterFragment(old(State()), fragment)
    {
      fragments := fragments[fragment := []];
      target := FragmentRules(fragment);
      isFragment := true;
    }

    method LeaveFragmentDefinition()
      modifies this
      ensures State() == OnLeaveFragment(old(State()))
    {
      isFragment := false;
      target := Transforms;
    }

    /** Records `{ ...args, key }` when the directive has the configured name. */
    method EnterDirective(d: Directive)
      modifies this
      ensures State() == OnEnterDirective(old(State()), d, name)
    {
      if d.name == name {
        var args := ResolveArguments(d.arguments);
        var rule := Put(args, "key", Str(Join(paths, '.')));
        match target
        case Transforms =>
          transforms := transforms + [rule];
        case FragmentRules(n) =>
          fragments := fragments[n := (if n in fragments then fragments[n] else []) + [rule]];
      }
    }

    method EnterField(f: Selection)
      requires f.Field?
      modifies this
      ensures State() == OnEnterField(old(State()), f)
    {
      if !isFragment {
        paths := paths + [f.alias.GetOr(f.name)];
      }
    }

    method LeaveField()
      modifies this
      ensures State() == OnLeaveField(old(State()))
    {
      if paths != [] {
        paths := paths[..|paths| - 1];
      }
    }

    // The depth-first traversal that drives the callbacks.

    method VisitDirectives(ds: seq<Directive>) returns (kept: seq<Directive>)
      modifies this
      ensures State() == WalkDirectives(old(State()), ds, name)
      ensures kept == Without(ds, name)
    {
      kept := [];
      var i := 0;
      while i < |ds|
        invariant 0 <= i <= |ds|
        invariant WalkDirectives(old(State()), ds, name) == WalkDirectives(State(), ds[i..], name)
        invariant Without(ds, name) == kept + Without(ds[i..], name)
      {
        WalkDirectivesStep(State(), ds, i, name);
        WithoutStep(ds, i, name, kept);
        EnterDirective(ds[i]);
        // The leave callback returns null, deleting the node, for a directive called `name`.
        kept := kept + if ds[i].name == name then [] else [ds[i]];
        i := i + 1;
      }
    }

    method VisitSelection(s: Selection) returns (r: Selection)
      modifies this
      ensures State() == WalkSelection(old(State()), s, name)
      ensures r == StripSelection(s, name)
      decreases s
    {
      match s
      case Field(alias, fname, args, ds, ss) =>
        EnterField(s);
        var ds' := VisitDirectives(ds);
        var ss' := VisitSelections(ss);
        LeaveField();
        r := Field(alias, fname, args, ds', ss');
      case FragmentSpread(fname, ds) =>
        var ds' := VisitDirectives(ds);
        r := FragmentSpread(fname, ds');
      case InlineFragment(tc, ds, ss) =>
        var ds' := VisitDirectives(ds);
        var ss' := VisitSelections(ss);
        r := InlineFragment(tc, ds', ss');
    }

    method VisitSelections(ss: seq<Selection>) returns (r: seq<Selection>)
      modifies this
      ensures State() == WalkSelections(old(State()), ss, name)
      ensures r == StripSelections(ss, name)
      decreases ss
    {
      r := [];
      var i := 0;
      while i < |ss|
        invariant 0 <= i <= |ss|
        invariant WalkSelections(old(State()), ss, name) == WalkSelections(State(), ss[i..], name)
        invariant StripSelections(ss, name) == r + StripSelections(ss[i..], name)
      {
        assert ss[i..][1..] == ss[i + 1..];
        var s' := VisitSelection(ss[i]);
        r := r + [s'];
        i := i + 1;
      }
    }

    method VisitVariables(vs: seq<VariableDefinition>) returns (r: seq<VariableDefinition>)
      modifies this
      ensures State() == WalkVariables(old(State()), vs, name)
      ensures r == StripVariables(vs, name)
    {
      r := [];
      var i := 0;
      while i < |vs|
        invariant 0 <= i <= |vs|
        invariant WalkVariables(old(State()), vs, name) == WalkVariables(State(), vs[i..], name)
        invariant StripVariables(vs, name) == r + StripVariables(vs[i..], name)
      {
        assert vs[i..][0] == vs[i] && vs[i..][1..] == vs[i + 1..];
        var ds' := VisitDirectives(vs[i].directives);
        r := r + [vs[i].(directives := ds')];
        i := i + 1;
      }
    }

    method VisitDefinition(d: Definition) returns (r: Definition)
      modifies this
      ensures State() == WalkDefinition(old(State()), d, name)
      ensures r == StripDefinition(d, name)
    {
      match d
      case OperationDefinition(op, n, vs, ds, ss) =>
        var vs' := VisitVariables(vs);
        var ds' := VisitDirectives(ds);
        var ss' := VisitSelections(ss);
        r := OperationDefinition(op, n, vs', ds', ss');
      case FragmentDefinition(n, vs, tc, ds, ss) =>
        EnterFragmentDefinition(n);
        var vs' := VisitVariables(vs);
        var ds' := VisitDirectives(ds);
        var ss' := VisitSelections(ss);
        LeaveFragmentDefinition();
        r := FragmentDefinition(n, vs', tc, ds', ss');
    }

    method VisitDocument(doc: Document) returns (r: Document)
      modifies this
      ensures State() == WalkDefinitions(old(State()), doc.definitions, name)
      ensures r == StripDocument(doc, name)
    {
      var defs := doc.definitions;
      var out: seq<Definition> := [];
      var i := 0;
      while i < |defs|
        invariant 0 <= i <= |defs|
        invariant WalkDefinitions(old(State()), defs, name) == WalkDefinitions(State(), defs[i..], name)
        invariant StripDefinitions(defs, name) == out + StripDefinitions(defs[i..], name)
      {
        assert defs[i..][1..] == defs[i + 1..];
        var d' := VisitDefinition(defs[i]);
        out := out + [d'];
        i := i + 1;
      }
      r := Document(out);
    }
  }

  /**
   * `GraphQLShape.parse(ast, options)`: the document without the directives
   * called `name`, and the rules of the operations in pre-order, each keyed
   * by the response keys of its enclosing fields.
   */
  method Parse(ast: Document, name: string) returns (query: Document, transforms: seq<Rule>)
    ensures query == StripDocument(ast, name)
    ensures forall d | d in DocumentDirectives(query) :: d.name != name
    ensures transforms == OperationRules(ast.definitions, name)
  {
    var visitor := new Visitor(name);
    query := visitor.VisitDocument(ast);
    WalkDocument(ast, name);
    StripDocumentDirectives(ast, name);
    transforms := visitor.transforms;
  }

  /** `new GraphQLShape(ast, options)`: `options.name` defaults to "shape". */
  method Shape(ast: Document, name: Option<string>) returns (query: Document, transforms: seq<Rule>)
    ensures query == StripDocument(ast, name.GetOr(DefaultDirectiveName))
    ensures forall d | d in DocumentDirectives(query) :: d.name != name.GetOr(DefaultDirectiveName)
    ensures transforms == OperationRules(ast.definitions, name.GetOr(DefaultDirectiveName))
  {
    query, transforms := Parse(ast, name.GetOr(DefaultDirectiveName));
  }
}
