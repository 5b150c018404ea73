/**
 * The operation library: the comparison switch `eq/ne/gt/gte/lt/lte`,
 * membership `in/nin`, the boolean folds `not/or/and`, `default`, `pick`, and
 * the array mutators `push/pop/shift/unshift`.
 */
module Functions {
  import opened JsValue
  import opened Util

  // ----- Comparators -----

  datatype Comparator = Eq | Ne | Gt | Gte | Lt | Lte

  /** Lexicographic order on strings, character by character; a proper prefix is smaller. */
  predicate StrLess(a: string, b: string)
    decreases |a|
  {
    if b == [] then false
    else if a == [] then true
    else if a[0] != b[0] then a[0] < b[0]
    else StrLess(a[1..], b[1..])
  }

  /** Values the relational operators order here: two numbers or two strings. */
  predicate Comparable(a: Value, b: Value) {
    (a.Num? && b.Num?) || (a.Str? && b.Str?)
  }

  /** `a < b` on two numbers or two strings. */
  predicate Less(a: Value, b: Value) {
    if a.Num? && b.Num? then a.n < b.n
    else if a.Str? && b.Str? then StrLess(a.s, b.s)
    else false
  }

  /**
   * `v === value`, `v !== value`, `v > value`, ...; `a >= b` is `!(a < b)`
   * and `a <= b` is `!(b < a)`, as JavaScript evaluates them.
   */
  predicate Holds(c: Comparator, v: Value, value: Value) {
    match c
    case Eq => v == value
    case Ne => v != value
    case Gt => Less(value, v)
    case Gte => Comparable(v, value) && !Less(v, value)
    case Lt => Less(v, value)
    case Lte => Comparable(v, value) && !Less(value, v)
  }

  /** Exactly one of `a < b`, `a == b`, `b < a` holds for two strings. */
  lemma {:induction false} StrTrichotomy(a: string, b: string)
    ensures !StrLess(a, a)
    ensures StrLess(a, b) || a == b || StrLess(b, a)
    ensures !(StrLess(a, b) && StrLess(b, a))
    decreases |a|
  {
    if a != [] {
      StrTrichotomy(a[1..], a[1..]);
    }
    if a != [] && b != [] {
      StrTrichotomy(a[1..], b[1..]);
      if a[0] == b[0] && a[1..] == b[1..] {
        assert a == [a[0]] + a[1..] && b == [b[0]] + b[1..];
      }
    }
  }

  /**
   * The comparators agree with each other: `ne` negates `eq`; on two numbers
   * or two strings `gte` is `gt` or `eq`, `lte` is `lt` or `eq`, and `gt`
   * is `lt` with the operands swapped.
   */
  lemma ComparatorsAgree(v: Value, x: Value)
    ensures Holds(Ne, v, x) <==> !Holds(Eq, v, x)
    ensures Holds(Gt, v, x) <==> Holds(Lt, x, v)
    ensures Comparable(v, x) ==> (Holds(Gte, v, x) <==> Holds(Gt, v, x) || Holds(Eq, v, x))
    ensures Comparable(v, x) ==> (Holds(Lte, v, x) <==> Holds(Lt, v, x) || Holds(Eq, v, x))
  {
    if v.Str? && x.Str? {
      StrTrichotomy(v.s, x.s);
    }
  }

  // ----- The pair switch of eq/ne/gt/gte/lt/lte -----

  /**
   * What pair `[value, result]` at index `i` yields while no earlier pair
   * has yielded anything: without a result, the comparator's boolean at
   * index 0 and `value` itself as a default later; with one, `result` when
   * the comparator holds.
   */
  function PairOutcome(c: Comparator, v: Value, pair: seq<Value>, i: nat): Value {
    var value := if |pair| > 0 then pair[0] else Undefined;
    var result := if |pair| > 1 then pair[1] else Undefined;
    if result == Undefined then (if i > 0 then value else Bool(Holds(c, v, value)))
    else if Holds(c, v, value) then result
    else Undefined
  }

  /** The `reduce` over the pairs, from index `i` on, with accumulator `prev`. */
  function Reduce(c: Comparator, v: Value, ps: seq<seq<Value>>, i: nat, prev: Value): Value
    decreases |ps|
  {
    if ps == [] then prev
    else
      var next := if prev != Undefined then prev else PairOutcome(c, v, ps[0], i);
      Reduce(c, v, ps[1..], i + 1, next)
  }

  /** `exports[c](v, ...args)`. */
  function Compare(c: Comparator, v: Value, args: seq<Value>): Value {
    Uvl(Reduce(c, v, Pairs(args), 0, Undefined), v)
  }

  /** Once a pair has yielded a value, later pairs are not consulted. */
  lemma {:induction false} ReduceKeeps(c: Comparator, v: Value, ps: seq<seq<Value>>, i: nat, prev: Value)
    requires prev != Undefined
    ensures Reduce(c, v, ps, i, prev) == prev
    decreases |ps|
  {
    if ps != [] {
      ReduceKeeps(c, v, ps[1..], i + 1, prev);
    }
  }

  /** The reduce yields the outcome of the first pair that has one. */
  lemma {:induction false} ReduceFirst(c: Comparator, v: Value, ps: seq<seq<Value>>, i: nat, j: nat)
    requires j < |ps| && PairOutcome(c, v, ps[j], i + j) != Undefined
    requires forall k | 0 <= k < j :: PairOutcome(c, v, ps[k], i + k) == Undefined
    ensures Reduce(c, v, ps, i, Undefined) == PairOutcome(c, v, ps[j], i + j)
    decreases |ps|
  {
    var first := PairOutcome(c, v, ps[0], i);
    if j == 0 {
      ReduceKeeps(c, v, ps[1..], i + 1, first);
    } else {
      assert first == Undefined;
      assert Reduce(c, v, ps, i, Undefined) == Reduce(c, v, ps[1..], i + 1, Undefined);
      forall k | 0 <= k < j - 1
        ensures PairOutcome(c, v, ps[1..][k], i + 1 + k) == Undefined
      {
        assert ps[1..][k] == ps[k + 1];
      }
      assert ps[1..][j - 1] == ps[j];
      ReduceFirst(c, v, ps[1..], i + 1, j - 1);
    }
  }

  /** The reduce yields undefined when no pair has an outcome. */
  lemma {:induction false} ReduceNone(c: Comparator, v: Value, ps: seq<seq<Value>>, i: nat)
    requires forall k | 0 <= k < |ps| :: PairOutcome(c, v, ps[k], i + k) == Undefined
    ensures Reduce(c, v, ps, i, Undefined) == Undefined
    decreases |ps|
  {
    if ps != [] {
      assert PairOutcome(c, v, ps[0], i) == Undefined;
      forall k | 0 <= k < |ps| - 1
        ensures PairOutcome(c, v, ps[1..][k], i + 1 + k) == Undefined
      {
        assert ps[1..][k] == ps[k + 1];
      }
      ReduceNone(c, v, ps[1..], i + 1);
    }
  }

  /** The first pair, in order, that yields a value decides the result. */
  lemma CompareFirst(c: Comparator, v: Value, args: seq<Value>, j: nat)
    requires j < |Pairs(args)|
    requires PairOutcome(c, v, Pairs(args)[j], j) != Undefined
    requires forall k | 0 <= k < j :: PairOutcome(c, v, Pairs(args)[k], k) == Undefined
    ensures Compare(c, v, args) == PairOutcome(c, v, Pairs(args)[j], j)
  {
    ReduceFirst(c, v, Pairs(args), 0, j);
  }

  /** When no pair yields a value the input comes back unchanged. */
  lemma CompareFallsThrough(c: Comparator, v: Value, args: seq<Value>)
    requires forall k | 0 <= k < |Pairs(args)| :: PairOutcome(c, v, Pairs(args)[k], k) == Undefined
    ensures Compare(c, v, args) == v
  {
    ReduceNone(c, v, Pairs(args), 0);
  }

  /**
   * With no result slot at pair 0 (a single argument, or an undefined
   * second one) the raw comparator boolean comes back, `false` included.
   */
  lemma CompareBare(c: Comparator, v: Value, args: seq<Value>)
    requires |args| >= 1 && (|args| == 1 || args[1] == Undefined)
    ensures Compare(c, v, args) == Bool(Holds(c, v, args[0]))
  {
    PairAt(args, 0);
    CompareFirst(c, v, args, 0);
  }

  /** A matching first pair supplies its result. */
  lemma CompareMatch(c: Comparator, v: Value, args: seq<Value>)
    requires |args| >= 2 && args[1] != Undefined && Holds(c, v, args[0])
    ensures Compare(c, v, args) == args[1]
  {
    PairAt(args, 0);
    CompareFirst(c, v, args, 0);
  }

  /**
   * An unpaired trailing argument after pairs that all failed is returned
   * as the default (an undefined default gives back the input).
   */
  lemma CompareDefault(c: Comparator, v: Value, args: seq<Value>)
    requires |args| >= 3 && |args| % 2 == 1
    requires forall k | 0 <= k < |args| / 2 :: args[2 * k + 1] != Undefined && !Holds(c, v, args[2 * k])
    ensures Compare(c, v, args) == Uvl(args[|args| - 1], v)
  {
    var ps := Pairs(args);
    var last := |args| / 2;
    assert |ps| == last + 1;
    forall k | 0 <= k < last
      ensures PairOutcome(c, v, ps[k], k) == Undefined
    {
      PairAt(args, k);
      assert Min(2 * k + 2, |args|) == 2 * k + 2;
      assert |ps[k]| == 2 && ps[k][0] == args[2 * k] && ps[k][1] == args[2 * k + 1];
    }
    PairAt(args, last);
    assert 2 * last == |args| - 1 && Min(2 * last + 2, |args|) == |args|;
    assert ps[last] == args[|args| - 1..];
    assert ps[last] == [args[|args| - 1]];
    if args[|args| - 1] != Undefined {
      CompareFirst(c, v, args, last);
    } else {
      CompareFallsThrough(c, v, args);
    }
  }

  // ----- Membership and boolean folds -----

  /** `xs.some(el => ys.includes(el))`. */
  predicate SomeIn(xs: seq<Value>, ys: seq<Value>) {
    exists x | x in xs :: x in ys
  }

  /** `in(a, ...args)`. */
  predicate In(a: Value, args: seq<Value>) {
    SomeIn(EnsureArray(a), Flat(args))
  }

  /** `in` holds iff some element of `a` is an element of some argument, arrays spread one level. */
  lemma InMembers(a: Value, args: seq<Value>)
    ensures In(a, args) <==>
            exists x, i | x in EnsureArray(a) && 0 <= i < |args| :: x in EnsureArray(args[i])
  {
    forall x | x in EnsureArray(a)
      ensures x in Flat(args) <==> exists i | 0 <= i < |args| :: x in EnsureArray(args[i])
    {
      FlatMembers(args, x);
    }
  }

  /** `nin(...args)`: the negation of `in`. */
  function Nin(a: Value, args: seq<Value>): (r: bool)
    ensures r <==> forall x, i | x in EnsureArray(a) && 0 <= i < |args| :: x !in EnsureArray(args[i])
  {
    InMembers(a, args);
    !In(a, args)
  }

  /** `not(el)`: true exactly on the falsy values. */
  function Not(el: Value): (r: bool)
    ensures r <==> el in {Undefined, Null, Bool(false), Num(0), Str("")}
  {
    !Truthy(el)
  }

  function AnyTruthy(xs: seq<Value>): (r: bool)
    ensures r <==> exists i | 0 <= i < |xs| :: Truthy(xs[i])
  {
    if xs == [] then false
    else
      assert forall i | 1 <= i < |xs| :: xs[i] == xs[1..][i - 1];
      Truthy(xs[0]) || AnyTruthy(xs[1..])
  }

  function AllTruthy(xs: seq<Value>): (r: bool)
    ensures r <==> forall i | 0 <= i < |xs| :: Truthy(xs[i])
  {
    if xs == [] then true
    else
      assert forall i | 1 <= i < |xs| :: xs[i] == xs[1..][i - 1];
      Truthy(xs[0]) && AllTruthy(xs[1..])
  }

  /** `or(...args)`: some flattened argument is truthy; false for no arguments. */
  function Or(args: seq<Value>): (r: bool)
    ensures r <==> exists x | x in Flat(args) :: Truthy(x)
    ensures args == [] ==> !r
  {
    AnyTruthy(Flat(args))
  }

  /** `and(...args)`: every flattened argument is truthy; true for no arguments. */
  function And(args: seq<Value>): (r: bool)
    ensures r <==> forall x | x in Flat(args) :: Truthy(x)
    ensures args == [] ==> r
  {
    AllTruthy(Flat(args))
  }

  // ----- default -----

  /** `find(el => el != null)`: the first element that is not null or undefined. */
  function FirstPresent(xs: seq<Value>): (r: Value)
    ensures r == Undefined <==> forall i | 0 <= i < |xs| :: Nullish(xs[i])
    ensures forall i | 0 <= i < |xs| && !Nullish(xs[i]) && (forall j | 0 <= j < i :: Nullish(xs[j])) ::
              r == xs[i]
  {
    if xs == [] then Undefined
    else if !Nullish(xs[0]) then xs[0]
    else
      var r := FirstPresent(xs[1..]);
      assert forall i | 1 <= i < |xs| :: xs[i] == xs[1..][i - 1];
      assert forall i | 0 <= i < |xs| && !Nullish(xs[i]) && (forall j | 0 <= j < i :: Nullish(xs[j])) :: r == xs[i] by {
        forall i | 0 <= i < |xs| && !Nullish(xs[i]) && (forall j | 0 <= j < i :: Nullish(xs[j]))
          ensures r == xs[i]
        {
          forall j | 0 <= j < i - 1
            ensures Nullish(xs[1..][j])
          {
            assert xs[1..][j] == xs[j + 1];
          }
        }
      }
      r
  }

  /** `default(v, ...args)`: the first non-null of `v`'s elements and then the flattened arguments. */
  function Default(v: Value, args: seq<Value>): Value {
    FirstPresent(EnsureArray(v) + Flat(args))
  }

  /** A present value that is not an array is its own default. */
  lemma DefaultKeeps(v: Value, args: seq<Value>)
    requires !Nullish(v) && !v.Arr?
    ensures Default(v, args) == v
  {
    assert (EnsureArray(v) + Flat(args))[0] == v;
  }

  /** A null or undefined value takes the first present flattened argument. */
  lemma DefaultFallsBack(v: Value, args: seq<Value>)
    requires Nullish(v)
    ensures Default(v, args) == FirstPresent(Flat(args))
  {
    var xs := [v] + Flat(args);
    assert xs[1..] == Flat(args);
  }

  // ----- pick -----

  /** Element `i` of an array, undefined past its end. */
  function At(items: seq<Value>, i: nat): Value {
    if i < |items| then items[i] else Undefined
  }

  /**
   * The `[key, $key]` of one argument: an array gives its first two
   * elements, an object its first entry, any other value is both; `null`
   * and an empty object cannot be destructured.
   */
  function PickEntry(mixed: Value): Result<(Value, Value)> {
    match mixed
    case Arr(items) => Ok((At(items, 0), At(items, 1)))
    case Null => Err(TypeError("Cannot convert undefined or null to object"))
    case Obj(ms) =>
      if ms == [] then Err(TypeError("undefined is not iterable"))
      else Ok((Str(ms[0].name), ms[0].val))
    case _ => Ok((mixed, mixed))
  }

  /** `{ [$key]: v[key] }` for one argument. */
  function PickMember(v: Value, mixed: Value): Result<Member> {
    var entry :- PickEntry(mixed);
    var x :- GetProp(v, ToPropertyKey(entry.0));
    Ok(Member(ToPropertyKey(entry.1), x))
  }

  /** The members for all arguments, left to right, stopping at the first exception. */
  function PickMembers(v: Value, args: seq<Value>): (r: Result<seq<Member>>)
    ensures r.Ok? <==> forall i | 0 <= i < |args| :: PickMember(v, args[i]).Ok?
    ensures r.Ok? ==> |r.value| == |args| &&
                      forall i | 0 <= i < |args| :: PickMember(v, args[i]) == Ok(r.value[i])
  {
    if args == [] then Ok([])
    else
      var m :- PickMember(v, args[0]);
      var ms :- PickMembers(v, args[1..]);
      assert forall i | 1 <= i < |args| :: args[i] == args[1..][i - 1];
      Ok([m] + ms)
  }

  /** `pick(v, ...args)`: the `reduce` + `Object.assign` over the members. */
  function Pick(v: Value, args: seq<Value>): (r: Result<Value>)
    ensures r.Ok? ==> r.value.Obj? && Distinct(Names(r.value.members))
    ensures args == [] ==> r == Ok(Obj([]))
    ensures Nullish(v) && args != [] && PickEntry(args[0]).Ok? ==> r.Err?
  {
    var ms :- PickMembers(v, args);
    Ok(Obj(Assign(ms)))
  }

  /**
   * The picked object's keys are exactly the targets, and each target holds
   * `v[key]` of the last argument naming it.
   */
  lemma PickTargets(v: Value, args: seq<Value>, i: nat)
    requires Pick(v, args).Ok? && i < |args|
    ensures PickMember(v, args[i]).value.name in Names(Pick(v, args).value.members)
    ensures (forall j | i < j < |args| :: PickMember(v, args[j]).value.name != PickMember(v, args[i]).value.name) ==>
            Lookup(Pick(v, args).value.members, PickMember(v, args[i]).value.name) ==
            GetProp(v, ToPropertyKey(PickEntry(args[i]).value.0)).value
  {
    var ms := PickMembers(v, args).value;
    assert ms[i] == PickMember(v, args[i]).value;
    assert Names(ms)[i] == ms[i].name;
    if forall j | i < j < |args| :: PickMember(v, args[j]).value.name != PickMember(v, args[i]).value.name {
      assert forall j | i < j < |ms| :: ms[j] == PickMember(v, args[j]).value;
      assert LastNamed(ms, i);
      AssignLast(ms, i);
    }
  }

  /** Nothing but the targets appears as a key. */
  lemma PickOnlyTargets(v: Value, args: seq<Value>, k: string)
    requires Pick(v, args).Ok?
    ensures k in Names(Pick(v, args).value.members) ==>
            exists i | 0 <= i < |args| :: PickMember(v, args[i]).value.name == k
  {
    var ms := PickMembers(v, args).value;
    if k in Names(ms) {
      var i :| 0 <= i < |ms| && Names(ms)[i] == k;
      assert PickMember(v, args[i]).value == ms[i];
    }
  }

  /** A plain string argument keeps its name: `pick(v, "a")` is `{ a: v.a }`. */
  lemma PickName(v: Value, name: string)
    requires !Nullish(v)
    ensures Pick(v, [Str(name)]) == Ok(Obj([Member(name, GetProp(v, name).value)]))
  {
    var ms := [Member(name, GetProp(v, name).value)];
    assert PickMember(v, Str(name)) == Ok(ms[0]);
    assert [Str(name)][1..] == [];
    assert PickMembers(v, []) == Ok([]);
    assert [ms[0]] + [] == ms;
    assert PickMembers(v, [Str(name)]) == Ok(ms);
    assert ms[..0] == [];
    assert Assign(ms) == Put(Assign([]), name, ms[0].val);
  }

  // ----- push/pop/shift/unshift -----

  datatype ArrayOp = Push | Pop | Shift | Unshift

  /** The elements after `Array.prototype[op](...args)`. */
  function Mutated(op: ArrayOp, items: seq<Value>, args: seq<Value>): seq<Value> {
    match op
    case Push => items + args
    case Pop => if items == [] then [] else items[..|items| - 1]
    case Shift => if items == [] then [] else items[1..]
    case Unshift => args + items
  }

  /** `pop` undoes a one-element `push`, and `shift` a one-element `unshift`. */
  lemma MutatedInverse(items: seq<Value>, x: Value)
    ensures Mutated(Pop, Mutated(Push, items, [x]), []) == items
    ensures Mutated(Shift, Mutated(Unshift, items, [x]), []) == items
  {
    assert (items + [x])[..|items|] == items;
    assert ([x] + items)[1..] == items;
  }

  /** A JavaScript array, changed in place by its own methods. */
  class JsArray {
    var items: seq<Value>

    constructor (items: seq<Value>)
      ensures this.items == items
    {
      this.items := items;
    }

    method Push(args: seq<Value>) returns (length: nat)
      modifies this
      ensures items == Mutated(ArrayOp.Push, old(items), args) && length == |items|
    {
      items := items + args;
      length := |items|;
    }

    method Pop() returns (removed: Value)
      modifies this
      ensures items == Mutated(ArrayOp.Pop, old(items), [])
      ensures removed == if old(items) == [] then Undefined else old(items)[|old(items)| - 1]
    {
      if items == [] {
        removed := Undefined;
      } else {
        removed := items[|items| - 1];
        items := items[..|items| - 1];
      }
    }

    method Shift() returns (removed: Value)
      modifies this
      ensures items == Mutated(ArrayOp.Shift, old(items), [])
      ensures removed == if old(items) == [] then Undefined else old(items)[0]
    {
      if items == [] {
        removed := Undefined;
      } else {
        removed := items[0];
        items := items[1..];
      }
    }

    method Unshift(args: seq<Value>) returns (length: nat)
      modifies this
      ensures items == Mutated(ArrayOp.Unshift, old(items), args) && length == |items|
    {
      items := args + items;
      length := |items|;
    }
  }

  /** A value that is not an array: it has none of the four methods. */
  type NonArray = v: Value | !v.Arr? witness Undefined

  /** The `v` handed to an array mutator: an array object, or any other value. */
  datatype Receiver = Array(arr: JsArray) | Other(value: NonArray)

  /**
   * `exports[op](v, ...args)`: `v?.[op]?.(...args)` changes an array in
   * place; anything else is left alone. The result is `v` itself, never the
   * removed element or the new length.
   */
  method ArrayFunction(op: ArrayOp, v: Receiver, args: seq<Value>) returns (r: Receiver)
    modifies if v.Array? then {v.arr} else {}
    ensures r == v
    ensures v.Array? ==> v.arr.items == Mutated(op, old(v.arr.items), args)
  {
    r := v;
    match v
    case Other(_) =>
    case Array(a) =>
      match op
      case Push => var _ := a.Push(args);
      case Pop => var _ := a.Pop();
      case Shift => var _ := a.Shift();
      case Unshift => var _ := a.Unshift(args);
  }
}
