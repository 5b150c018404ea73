/**
 * `GraphQLShape.transform`: replays recorded rules against a JSON tree, in
 * place. For each rule the value at `key` is read, `path` (default "$") is
 * selected from it, the rule's remaining entries are applied in order to the
 * selection unless it is null, and the result is written back at `key`.
 *
 * The JSONPath engine and JavaScript's method dispatch `value[fn](...args)`
 * are parameters: `Selector` and `Invoker`. Either may throw, which stops
 * the run.
 */
module ShapeTransform {
  import opened JsValue
  import opened Util
  import opened DottedPath
  import opened GraphQLAst
  import opened ShapeCompiler

  /**
   * `JSONPath({ path, json, wrap: false })`, given `path` and `json`: the
   * selection, or the exception the engine throws (a path that is no string,
   * or one it cannot parse).
   */
  type Selector = (Value, Value) -> Result<Value>

  /**
   * `receiver[fn](...args)` on a receiver that is not null or undefined:
   * the method's result, or the exception it throws (including "is not a
   * function"). The spreading of `args` happens inside.
   */
  type Invoker = (Value, string, Value) -> Result<Value>

  /** The JSONPath used when a rule names none. */
  const DefaultPath: Value := Str("$")

  // ----- Reading a rule: `{ key, path = '$', ...rest }` -----

  /** The steps of the dotted `key`; a key that is no string is one step. */
  function RuleKey(rule: Rule): seq<string> {
    var k := Lookup(rule, "key");
    if k.Str? then Split(k.s, '.') else [ToPropertyKey(k)]
  }

  /** A destructuring default replaces `undefined` only; a `null` path stays. */
  function RulePath(rule: Rule): (r: Value)
    ensures r != Undefined
    ensures Lookup(rule, "path") == Undefined ==> r == DefaultPath
    ensures Lookup(rule, "path") != Undefined ==> r == Lookup(rule, "path")
  {
    var p := Lookup(rule, "path");
    if p == Undefined then DefaultPath else p
  }

  /** The rule's other entries, in their order: the operations to apply. */
  function Rest(rule: Rule): (r: seq<Member>)
    ensures forall i | 0 <= i < |r| :: r[i].name != "key" && r[i].name != "path"
    ensures forall m | m in rule && m.name != "key" && m.name != "path" :: m in r
    ensures forall m | m in r :: m in rule
  {
    if rule == [] then []
    else
      var r := (if rule[0].name == "key" || rule[0].name == "path" then [] else [rule[0]]) + Rest(rule[1..]);
      assert forall m | m in rule :: m == rule[0] || m in rule[1..];
      r
  }

  /** The entries of `a + b` left after destructuring are those of `a`, then those of `b`. */
  lemma {:induction false} RestAppend(a: Rule, b: Rule)
    ensures Rest(a + b) == Rest(a) + Rest(b)
    decreases a
  {
    if a == [] {
      assert a + b == b;
    } else {
      assert (a + b)[0] == a[0];
      assert (a + b)[1..] == a[1..] + b;
      RestAppend(a[1..], b);
      var head := if a[0].name == "key" || a[0].name == "path" then [] else [a[0]];
      AppendAssoc(head, Rest(a[1..]), Rest(b));
    }
  }

  /**
   * `Rest` is the rule with `key` and `path` filtered out, order kept: each
   * member stays in its place among the others unless it is one of those two.
   */
  lemma RestKeepsOrder(a: Rule, m: Member, b: Rule)
    ensures Rest(a + [m] + b) ==
            Rest(a) + (if m.name == "key" || m.name == "path" then [] else [m]) + Rest(b)
  {
    var h := if m.name == "key" || m.name == "path" then [] else [m];
    assert Rest([m]) == h by {
      assert [m][0] == m && [m][1..] == [];
    }
    RestAppend(a, [m]);
    RestAppend(a + [m], b);
  }

  /** A recorded rule's key reads back as the response keys it was captured under. */
  lemma CapturedKey(d: Directive, paths: seq<string>)
    requires paths != [] && forall i | 0 <= i < |paths| :: '.' !in paths[i]
    ensures RuleKey(Capture(d, paths)) == paths
  {
    SplitJoin(paths, '.');
  }

  // ----- Applying the operations -----

  /** `value[fn](...args)`: reading a property of null or undefined throws. */
  function Call(invoke: Invoker, v: Value, fn: string, args: Value): (r: Result<Value>)
    ensures Nullish(v) ==> r.Err?
    ensures !Nullish(v) ==> r == invoke(v, fn, args)
  {
    if GetProp(v, fn).Err? then Err(GetProp(v, fn).error) else invoke(v, fn, args)
  }

  /** `xs.map(x => x[fn]())`: left to right, stopping at the first exception. */
  function CallEach(invoke: Invoker, xs: seq<Value>, fn: string): (r: Result<seq<Value>>)
    ensures r.Ok? <==> forall i | 0 <= i < |xs| :: Call(invoke, xs[i], fn, Arr([])).Ok?
    ensures r.Ok? ==> |r.value| == |xs| &&
                      forall i | 0 <= i < |xs| :: Call(invoke, xs[i], fn, Arr([])) == Ok(r.value[i])
  {
    if xs == [] then Ok([])
    else
      var y :- Call(invoke, xs[0], fn, Arr([]));
      var ys :- CallEach(invoke, xs[1..], fn);
      assert forall i | 1 <= i < |xs| :: xs[i] == xs[1..][i - 1];
      Ok([y] + ys)
  }

  /** `Util.map(value, v => v[fn]())`: element by element on an array, else once. */
  function MapCall(invoke: Invoker, v: Value, fn: string): (r: Result<Value>)
    ensures v.Arr? && r.Ok? ==> r.value.Arr? && |r.value.items| == |v.items|
  {
    if v.Arr? then
      var ys :- CallEach(invoke, v.items, fn);
      Ok(Arr(ys))
    else Call(invoke, v, fn, Arr([]))
  }

  /** `each`: every named method, in order, applied to the whole value each time. */
  function EachMethods(invoke: Invoker, v: Value, methods: seq<Value>): (r: Result<Value>)
    ensures v.Arr? && r.Ok? ==> r.value.Arr? && |r.value.items| == |v.items|
    decreases methods
  {
    if methods == [] then Ok(v)
    else
      var v' :- MapCall(invoke, v, ToPropertyKey(methods[0]));
      EachMethods(invoke, v', methods[1..])
  }

  /** One entry `[fn, mixed]` of the rule. */
  function ApplyEntry(invoke: Invoker, v: Value, e: Member): Result<Value> {
    if e.name == "each" then EachMethods(invoke, v, EnsureArray(e.val))
    else Call(invoke, v, e.name, e.val)
  }

  /** The entries in insertion order, each applied to the previous result. */
  function ApplyEntries(invoke: Invoker, v: Value, es: seq<Member>): Result<Value>
    decreases es
  {
    if es == [] then Ok(v)
    else
      var v' :- ApplyEntry(invoke, v, es[0]);
      ApplyEntries(invoke, v', es[1..])
  }

  /** `each` with one method maps that method over the array's elements. */
  lemma EachOneMethod(invoke: Invoker, xs: seq<Value>, fn: string)
    ensures EachMethods(invoke, Arr(xs), [Str(fn)]).Ok? <==>
            forall i | 0 <= i < |xs| :: Call(invoke, xs[i], fn, Arr([])).Ok?
    ensures EachMethods(invoke, Arr(xs), [Str(fn)]).Ok? ==>
            var ys := EachMethods(invoke, Arr(xs), [Str(fn)]).value.items;
            |ys| == |xs| && forall i | 0 <= i < |xs| :: Call(invoke, xs[i], fn, Arr([])) == Ok(ys[i])
  {
    var r := CallEach(invoke, xs, fn);
    if r.Ok? {
      assert EachMethods(invoke, Arr(xs), [Str(fn)]) == EachMethods(invoke, Arr(r.value), []);
    }
  }

  /**
   * Applying entries `a + b` is applying `a`, then `b` to its result; an
   * exception in `a` stops everything after it.
   */
  lemma {:induction false} ApplyEntriesAppend(invoke: Invoker, v: Value, a: seq<Member>, b: seq<Member>)
    ensures ApplyEntries(invoke, v, a + b) ==
            match ApplyEntries(invoke, v, a)
            case Err(e) => Err(e)
            case Ok(x) => ApplyEntries(invoke, x, b)
    decreases a
  {
    if a == [] {
      assert a + b == b;
    } else {
      assert (a + b)[0] == a[0];
      assert (a + b)[1..] == a[1..] + b;
      match ApplyEntry(invoke, v, a[0])
      case Err(_) =>
      case Ok(x) => ApplyEntriesAppend(invoke, x, a[1..], b);
    }
  }

  // ----- One rule, and the whole program -----

  /** The value the rule selects under `key`, or the selector's exception. */
  function Selected(select: Selector, root: Value, rule: Rule): Result<Value> {
    select(RulePath(rule), Get(root, RuleKey(rule)))
  }

  /** The value to write back: a null selection is written back as it is. */
  function RuleValue(select: Selector, invoke: Invoker, root: Value, rule: Rule): Result<Value> {
    var value :- Selected(select, root, rule);
    if value == Null then Ok(Null) else ApplyEntries(invoke, value, Rest(rule))
  }

  function ApplyRule(select: Selector, invoke: Invoker, root: Value, rule: Rule): Result<Value> {
    var value :- RuleValue(select, invoke, root, rule);
    Ok(Set(root, RuleKey(rule), value))
  }

  /** The tree after the rules ran, and the exception that stopped them, if any. */
  datatype Outcome = Outcome(data: Value, error: Option<Error>)

  function Run(select: Selector, invoke: Invoker, root: Value, rules: seq<Rule>): Outcome
    decreases rules
  {
    if rules == [] then Outcome(root, None)
    else
      match ApplyRule(select, invoke, root, rules[0])
      case Err(e) => Outcome(root, Some(e))
      case Ok(root') => Run(select, invoke, root', rules[1..])
  }

  /**
   * A rule whose selection is null runs none of its operations, whatever
   * they are, and still writes null back at its key.
   */
  lemma NullSelection(select: Selector, invoke: Invoker, other: Invoker, root: Value, rule: Rule)
    requires Selected(select, root, rule) == Ok(Null)
    ensures ApplyRule(select, invoke, root, rule) == ApplyRule(select, other, root, rule)
    ensures Writable(root, RuleKey(rule)) ==> Get(ApplyRule(select, invoke, root, rule).value, RuleKey(rule)) == Null
  {
    if Writable(root, RuleKey(rule)) {
      GetSet(root, RuleKey(rule), Null);
    }
  }

  /**
   * A selection that throws stops the program at that rule: no operation of
   * the rule runs, nothing is written, and the tree is as the rules before left it.
   */
  lemma SelectionThrows(select: Selector, invoke: Invoker, root: Value, rule: Rule, rules: seq<Rule>)
    requires Selected(select, root, rule).Err?
    ensures Run(select, invoke, root, [rule] + rules) == Outcome(root, Some(Selected(select, root, rule).error))
  {
    assert ([rule] + rules)[0] == rule;
  }

  /** A rule writes its result at its key. */
  lemma RuleWritesKey(select: Selector, invoke: Invoker, root: Value, rule: Rule)
    requires ApplyRule(select, invoke, root, rule).Ok? && Writable(root, RuleKey(rule))
    ensures Get(ApplyRule(select, invoke, root, rule).value, RuleKey(rule)) ==
            RuleValue(select, invoke, root, rule).value
  {
    GetSet(root, RuleKey(rule), RuleValue(select, invoke, root, rule).value);
  }

  /**
   * A rule that writes below member `a` of an existing object leaves what
   * lies below any other member `b` of that object as it was.
   */
  lemma RuleLeavesSiblings(select: Selector, invoke: Invoker, root: Value, rule: Rule,
                           c: seq<string>, a: string, p: seq<string>, b: string, q: seq<string>)
    requires ApplyRule(select, invoke, root, rule).Ok?
    requires RuleKey(rule) == c + [a] + p
    requires Present(root, c) && Get(root, c).Obj? && a != b
    ensures Get(ApplyRule(select, invoke, root, rule).value, c + [b] + q) == Get(root, c + [b] + q)
  {
    SetLeavesSiblings(root, c, a, p, b, q, RuleValue(select, invoke, root, rule).value);
  }

  /**
   * Running `a + b` is running `a`, then `b` on the resulting tree; an
   * exception in `a` stops the program with the tree as `a` left it.
   */
  lemma {:induction false} RunAppend(select: Selector, invoke: Invoker, root: Value, a: seq<Rule>, b: seq<Rule>)
    ensures Run(select, invoke, root, a + b) ==
            var o := Run(select, invoke, root, a);
            if o.error.Some? then o else Run(select, invoke, o.data, b)
    decreases a
  {
    if a == [] {
      assert a + b == b;
    } else {
      assert (a + b)[0] == a[0];
      assert (a + b)[1..] == a[1..] + b;
      match ApplyRule(select, invoke, root, a[0])
      case Err(_) =>
      case Ok(root') => RunAppend(select, invoke, root', a[1..], b);
    }
  }

  // ----- The imperative loops -----

  /** The data object `transform` updates in place and returns. */
  class JsonTree {
    var root: Value

    constructor (root: Value)
      ensures this.root == root
    {
      this.root := root;
    }
  }

  /** The inner `forEach` over the rule's entries, reassigning `value`. */
  method ApplyInOrder(invoke: Invoker, value: Value, entries: seq<Member>) returns (r: Result<Value>)
    ensures r == ApplyEntries(invoke, value, entries)
  {
    var v := value;
    var i := 0;
    while i < |entries|
      invariant 0 <= i <= |entries|
      invariant ApplyEntries(invoke, value, entries) == ApplyEntries(invoke, v, entries[i..])
    {
      assert entries[i..][0] == entries[i] && entries[i..][1..] == entries[i + 1..];
      var e := entries[i];
      if e.name == "each" {
        var methods := EnsureArray(e.val);
        var before := v;
        var j := 0;
        while j < |methods|
          invariant 0 <= j <= |methods|
          invariant EachMethods(invoke, before, methods) == EachMethods(invoke, v, methods[j..])
        {
          assert methods[j..][1..] == methods[j + 1..];
          var next := MapCall(invoke, v, ToPropertyKey(methods[j]));
          if next.Err? {
            return Err(next.error);
          }
          v := next.value;
          j := j + 1;
        }
      } else {
        var next := Call(invoke, v, e.name, e.val);
        if next.Err? {
          return Err(next.error);
        }
        v := next.value;
      }
      i := i + 1;
    }
    return Ok(v);
  }

  /**
   * The body of the outer `forEach` for one rule: select, apply the
   * operations, write back. An exception leaves `data` as it was.
   */
  method ApplyOne(data: JsonTree, rule: Rule, select: Selector, invoke: Invoker) returns (error: Option<Error>)
    modifies data
    ensures match ApplyRule(select, invoke, old(data.root), rule)
            case Err(e) => error == Some(e) && data.root == old(data.root)
            case Ok(root) => error == None && data.root == root
  {
    var key := RuleKey(rule);
    var json := Get(data.root, key);
    var selected := select(RulePath(rule), json);
    if selected.Err? {
      return Some(selected.error);
    }
    var value := selected.value;
    if value != Null {
      var result := ApplyInOrder(invoke, value, Rest(rule));
      if result.Err? {
        return Some(result.error);
      }
      value := result.value;
    }
    data.root := Set(data.root, key, value);
    return None;
  }

  /**
   * `GraphQLShape.transform(data, transforms = [])`: the rules run in order
   * against `data`, which is updated in place and returned. An exception
   * leaves the writes of the rules before it in place.
   */
  method Transform(data: JsonTree, transforms: Option<seq<Rule>>, select: Selector, invoke: Invoker)
    returns (r: JsonTree, error: Option<Error>)
    modifies data
    ensures r == data
    ensures Outcome(data.root, error) == Run(select, invoke, old(data.root), transforms.GetOr([]))
  {
    var rules := transforms.GetOr([]);
    var i := 0;
    while i < |rules|
      invariant 0 <= i <= |rules|
      invariant Run(select, invoke, old(data.root), rules) == Run(select, invoke, data.root, rules[i..])
    {
      assert rules[i..][0] == rules[i] && rules[i..][1..] == rules[i + 1..];
      var e := ApplyOne(data, rules[i], select, invoke);
      if e.Some? {
        return data, e;
      }
      i := i + 1;
    }
    return data, None;
  }

  /** `transform` with no rules hands back the same data, unchanged. */
  method TransformNothing(data: JsonTree, select: Selector, invoke: Invoker) returns (r: JsonTree)
    modifies data
    ensures r == data && data.root == old(data.root)
  {
    var error;
    r, error := Transform(data, None, select, invoke);
  }

  // ----- `GraphQLShape.define` -----

  /**
   * `GraphQLShape.functions`: a table of named functions that `define`
   * fills. `transform` dispatches through the value's own methods and does
   * not consult it.
   */
  class Registry<F> {
    var functions: map<string, F>

    constructor ()
      ensures functions == map[]
    {
      functions := map[];
    }

    method Define(key: string, fn: F)
      modifies this
      ensures functions == old(functions)[key := fn]
    {
      functions := functions[key := fn];
    }
  }
}
