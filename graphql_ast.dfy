/**
 * The part of a GraphQL document the shaping compiler walks: operations,
 * fragment definitions, variable definitions, fields with an optional
 * alias, fragment spreads, inline fragments, directives and argument values. Parsing text into this
 * tree and printing it back belong to the GraphQL front end and are not
 * modelled; the printed query is the tree the walk returns.
 */
module GraphQLAst {
  import opened JsValue

  /** Argument values; numeric literals keep their source text. */
  datatype ValueNode =
    | NullValue
    | IntValue(text: string)
    | FloatValue(text: string)
    | StringValue(text: string)
    | BooleanValue(b: bool)
    | EnumValue(text: string)
    | Variable(name: string)
    | ListValue(values: seq<ValueNode>)
    | ObjectValue(fields: seq<ObjectField>)

  /** A name bound to a value node: the shape of both an argument and an object-literal field. */
  datatype NamedValue = NamedValue(name: string, value: ValueNode)

  type ObjectField = NamedValue

  type Argument = NamedValue

  datatype Directive = Directive(name: string, arguments: seq<Argument>)

  datatype Selection =
    | Field(alias: Option<string>, name: string, arguments: seq<Argument>,
            directives: seq<Directive>, selections: seq<Selection>)
    | FragmentSpread(name: string, directives: seq<Directive>)
    | InlineFragment(typeCondition: Option<string>, directives: seq<Directive>,
                     selections: seq<Selection>)

  datatype OperationType = Query | Mutation | Subscription

  /** `$variable: Type = default @directives`; the type is kept as its text. */
  datatype VariableDefinition = VariableDefinition(variable: string, varType: string,
                                                   defaultValue: Option<ValueNode>, directives: seq<Directive>)

  /**
   * Both kinds of definition carry variable definitions (on a fragment they
   * are the parser's legacy fragment variables). A walk meets a definition's
   * variable definitions before its own directives.
   */
  datatype Definition =
    | OperationDefinition(operation: OperationType, operationName: Option<string>,
                          variables: seq<VariableDefinition>,
                          directives: seq<Directive>, selections: seq<Selection>)
    | FragmentDefinition(name: string, variables: seq<VariableDefinition>, typeCondition: string,
                         directives: seq<Directive>, selections: seq<Selection>)

  datatype Document = Document(definitions: seq<Definition>)

  /** The key a field's value has in the response: its alias, else its name. */
  function ResponseKey(f: Selection): string
    requires f.Field?
  {
    f.alias.GetOr(f.name)
  }

  // ----- The directives of a tree, in the order a depth-first walk meets them -----

  function SelectionDirectives(s: Selection): seq<Directive>
    decreases s
  {
    match s
    case Field(_, _, _, ds, ss) => ds + SelectionsDirectives(ss)
    case FragmentSpread(_, ds) => ds
    case InlineFragment(_, ds, ss) => ds + SelectionsDirectives(ss)
  }

  function SelectionsDirectives(ss: seq<Selection>): seq<Directive>
    decreases ss
  {
    if ss == [] then [] else SelectionDirectives(ss[0]) + SelectionsDirectives(ss[1..])
  }

  function VariablesDirectives(vs: seq<VariableDefinition>): seq<Directive> {
    if vs == [] then [] else vs[0].directives + VariablesDirectives(vs[1..])
  }

  function DefinitionDirectives(d: Definition): seq<Directive> {
    VariablesDirectives(d.variables) + d.directives + SelectionsDirectives(d.selections)
  }

  function DefinitionsDirectives(defs: seq<Definition>): seq<Directive> {
    if defs == [] then [] else DefinitionDirectives(defs[0]) + DefinitionsDirectives(defs[1..])
  }

  function DocumentDirectives(doc: Document): seq<Directive> {
    DefinitionsDirectives(doc.definitions)
  }

  // ----- Removing the directives with one name -----

  /** The directives not named `name`, in their order. */
  function Without(ds: seq<Directive>, name: string): seq<Directive> {
    if ds == [] then []
    else if ds[0].name == name then Without(ds[1..], name)
    else [ds[0]] + Without(ds[1..], name)
  }

  lemma {:induction false} WithoutAppend(a: seq<Directive>, b: seq<Directive>, name: string)
    ensures Without(a + b, name) == Without(a, name) + Without(b, name)
  {
    if a != [] {
      assert (a + b)[1..] == a[1..] + b;
      WithoutAppend(a[1..], b, name);
    } else {
      assert a + b == b;
    }
  }

  function StripSelection(s: Selection, name: string): Selection
    decreases s
  {
    match s
    case Field(alias, fname, args, ds, ss) =>
      Field(alias, fname, args, Without(ds, name), StripSelections(ss, name))
    case FragmentSpread(fname, ds) => FragmentSpread(fname, Without(ds, name))
    case InlineFragment(tc, ds, ss) => InlineFragment(tc, Without(ds, name), StripSelections(ss, name))
  }

  function StripSelections(ss: seq<Selection>, name: string): (r: seq<Selection>)
    ensures |r| == |ss|
    decreases ss
  {
    if ss == [] then [] else [StripSelection(ss[0], name)] + StripSelections(ss[1..], name)
  }

  function StripVariables(vs: seq<VariableDefinition>, name: string): seq<VariableDefinition> {
    if vs == [] then []
    else [vs[0].(directives := Without(vs[0].directives, name))] + StripVariables(vs[1..], name)
  }

  function StripDefinition(d: Definition, name: string): Definition {
    match d
    case OperationDefinition(op, n, vs, ds, ss) =>
      OperationDefinition(op, n, StripVariables(vs, name), Without(ds, name), StripSelections(ss, name))
    case FragmentDefinition(n, vs, tc, ds, ss) =>
      FragmentDefinition(n, StripVariables(vs, name), tc, Without(ds, name), StripSelections(ss, name))
  }

  function StripDefinitions(defs: seq<Definition>, name: string): seq<Definition> {
    if defs == [] then [] else [StripDefinition(defs[0], name)] + StripDefinitions(defs[1..], name)
  }

  /** The document as printed: every directive called `name` deleted. */
  function StripDocument(doc: Document, name: string): Document {
    Document(StripDefinitions(doc.definitions, name))
  }

  // ----- Stripping removes exactly the directives with that name -----

  lemma {:induction false} StripSelectionDirectives(s: Selection, name: string)
    ensures SelectionDirectives(StripSelection(s, name)) == Without(SelectionDirectives(s), name)
    decreases s
  {
    match s
    case Field(_, _, _, ds, ss) =>
      StripSelectionsDirectives(ss, name);
      WithoutAppend(ds, SelectionsDirectives(ss), name);
    case FragmentSpread(_, ds) =>
    case InlineFragment(_, ds, ss) =>
      StripSelectionsDirectives(ss, name);
      WithoutAppend(ds, SelectionsDirectives(ss), name);
  }

  lemma {:induction false} StripSelectionsDirectives(ss: seq<Selection>, name: string)
    ensures SelectionsDirectives(StripSelections(ss, name)) == Without(SelectionsDirectives(ss), name)
    decreases ss
  {
    if ss != [] {
      var stripped := StripSelections(ss, name);
      assert stripped[0] == StripSelection(ss[0], name);
      assert stripped[1..] == StripSelections(ss[1..], name);
      StripSelectionDirectives(ss[0], name);
      StripSelectionsDirectives(ss[1..], name);
      WithoutAppend(SelectionDirectives(ss[0]), SelectionsDirectives(ss[1..]), name);
    }
  }

  lemma {:induction false} StripVariablesDirectives(vs: seq<VariableDefinition>, name: string)
    ensures VariablesDirectives(StripVariables(vs, name)) == Without(VariablesDirectives(vs), name)
  {
    if vs != [] {
      var stripped := StripVariables(vs, name);
      assert stripped[0].directives == Without(vs[0].directives, name);
      assert stripped[1..] == StripVariables(vs[1..], name);
      StripVariablesDirectives(vs[1..], name);
      WithoutAppend(vs[0].directives, VariablesDirectives(vs[1..]), name);
    }
  }

  lemma StripDefinitionDirectives(d: Definition, name: string)
    ensures DefinitionDirectives(StripDefinition(d, name)) == Without(DefinitionDirectives(d), name)
  {
    var a, b, c := VariablesDirectives(d.variables), d.directives, SelectionsDirectives(d.selections);
    StripVariablesDirectives(d.variables, name);
    StripSelectionsDirectives(d.selections, name);
    WithoutAppend(a, b, name);
    WithoutAppend(a + b, c, name);
  }

  lemma {:induction false} StripDefinitionsDirectives(defs: seq<Definition>, name: string)
    ensures DefinitionsDirectives(StripDefinitions(defs, name)) == Without(DefinitionsDirectives(defs), name)
  {
    if defs != [] {
      var d := defs[0];
      StripDefinitionDirectives(d, name);
      StripDefinitionsDirectives(defs[1..], name);
      WithoutAppend(DefinitionDirectives(d), DefinitionsDirectives(defs[1..]), name);
    }
  }

  /**
   * The printed document holds every directive of the source not called
   * `name`, in order, and none called `name`.
   */
  lemma StripDocumentDirectives(doc: Document, name: string)
    ensures DocumentDirectives(StripDocument(doc, name)) == Without(DocumentDirectives(doc), name)
    ensures forall d | d in DocumentDirectives(StripDocument(doc, name)) :: d.name != name
  {
    StripDefinitionsDirectives(doc.definitions, name);
    WithoutOmits(DocumentDirectives(doc), name);
  }

  lemma {:induction false} WithoutOmits(ds: seq<Directive>, name: string)
    ensures forall d | d in Without(ds, name) :: d.name != name
    ensures forall d | d in ds && d.name != name :: d in Without(ds, name)
  {
    if ds != [] {
      WithoutOmits(ds[1..], name);
      assert forall d | d in ds :: d == ds[0] || d in ds[1..];
    }
  }

  /** A document with no directive called `name` prints unchanged. */
  lemma {:induction false} StripNothing(doc: Document, name: string)
    requires forall d | d in DocumentDirectives(doc) :: d.name != name
    ensures StripDocument(doc, name) == doc
  {
    StripDefinitionsNothing(doc.definitions, name);
  }

  lemma {:induction false} WithoutNothing(ds: seq<Directive>, name: string)
    requires forall d | d in ds :: d.name != name
    ensures Without(ds, name) == ds
  {
    if ds != [] {
      WithoutNothing(ds[1..], name);
    }
  }

  lemma {:induction false} StripSelectionNothing(s: Selection, name: string)
    requires forall d | d in SelectionDirectives(s) :: d.name != name
    ensures StripSelection(s, name) == s
    decreases s
  {
    match s
    case Field(_, _, _, ds, ss) =>
      WithoutNothing(ds, name);
      StripSelectionsNothing(ss, name);
    case FragmentSpread(_, ds) =>
      WithoutNothing(ds, name);
    case InlineFragment(_, ds, ss) =>
      WithoutNothing(ds, name);
      StripSelectionsNothing(ss, name);
  }

  lemma {:induction false} StripSelectionsNothing(ss: seq<Selection>, name: string)
    requires forall d | d in SelectionsDirectives(ss) :: d.name != name
    ensures StripSelections(ss, name) == ss
    decreases ss
  {
    if ss != [] {
      StripSelectionNothing(ss[0], name);
      StripSelectionsNothing(ss[1..], name);
      assert [ss[0]] + ss[1..] == ss;
    }
  }

  lemma {:induction false} StripVariablesNothing(vs: seq<VariableDefinition>, name: string)
    requires forall d | d in VariablesDirectives(vs) :: d.name != name
    ensures StripVariables(vs, name) == vs
  {
    if vs != [] {
      WithoutNothing(vs[0].directives, name);
      StripVariablesNothing(vs[1..], name);
      assert [vs[0]] + vs[1..] == vs;
    }
  }

  lemma {:induction false} StripDefinitionsNothing(defs: seq<Definition>, name: string)
    requires forall d | d in DefinitionsDirectives(defs) :: d.name != name
    ensures StripDefinitions(defs, name) == defs
  {
    if defs != [] {
      var d := defs[0];
      StripVariablesNothing(d.variables, name);
      WithoutNothing(d.directives, name);
      StripSelectionsNothing(d.selections, name);
      StripDefinitionsNothing(defs[1..], name);
      assert [defs[0]] + defs[1..] == defs;
    }
  }
}
