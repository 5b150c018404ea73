/**
 * JavaScript values as the shaping code handles them: JSON trees plus
 * `undefined`, with objects kept as ordered member lists so that the
 * insertion order of `Object.assign` and `Object.entries` is visible.
 */
module JsValue {

  datatype Option<+T> = None | Some(value: T) {
    function GetOr(default: T): T {
      match this
      case Some(v) => v
      case None => default
    }
  }

  /** The exceptions the modelled code can raise. */
  datatype Error = TypeError(message: string)

  datatype Result<+T> = Ok(value: T) | Err(error: Error) {
    predicate IsFailure() {
      Err?
    }

    function PropagateFailure<U>(): Result<U>
      requires Err?
    {
      Err(error)
    }

    function Extract(): T
      requires Ok?
    {
      value
    }
  }

  /** Numbers are integers: floating point and NaN are not modelled. */
  datatype Value =
    | Undefined
    | Null
    | Bool(b: bool)
    | Num(n: int)
    | Str(s: string)
    | Arr(items: seq<Value>)
    | Obj(members: seq<Member>)

  /** One own property of an object, in insertion order. */
  datatype Member = Member(name: string, val: Value)

  /** `v == null` in JavaScript: null or undefined. */
  predicate Nullish(v: Value) {
    v.Undefined? || v.Null?
  }

  /** JavaScript truthiness: false, 0, "", null and undefined are falsy. */
  predicate Truthy(v: Value) {
    match v
    case Undefined => false
    case Null => false
    case Bool(b) => b
    case Num(n) => n != 0
    case Str(s) => s != ""
    case Arr(_) => true
    case Obj(_) => true
  }

  function Names(ms: seq<Member>): seq<string> {
    seq(|ms|, i requires 0 <= i < |ms| => ms[i].name)
  }

  predicate Distinct(s: seq<string>) {
    forall i, j | 0 <= i < j < |s| :: s[i] != s[j]
  }

  /** `obj[k]` on an object: the first member named `k`, else undefined. */
  function Lookup(ms: seq<Member>, k: string): (r: Value)
    ensures k !in Names(ms) ==> r == Undefined
  {
    if ms == [] then Undefined
    else if ms[0].name == k then
      assert Names(ms)[0] == k;
      ms[0].val
    else
      assert Names(ms) == [ms[0].name] + Names(ms[1..]);
      Lookup(ms[1..], k)
  }

  /** Names and lookups of an object with one more member in front. */
  lemma Cons(m: Member, rest: seq<Member>)
    ensures Names([m] + rest) == [m.name] + Names(rest)
    ensures forall k :: Lookup([m] + rest, k) == if m.name == k then m.val else Lookup(rest, k)
  {
    var ms := [m] + rest;
    assert ms[0] == m && ms[1..] == rest;
  }

  /**
   * `Object.assign(obj, { [k]: v })`: an existing property keeps its
   * position and takes the new value; a new one goes last.
   */
  function Put(ms: seq<Member>, k: string, v: Value): (r: seq<Member>)
    ensures Lookup(r, k) == v
    ensures forall k' | k' != k :: Lookup(r, k') == Lookup(ms, k')
    ensures k in Names(ms) ==> Names(r) == Names(ms)
    ensures k !in Names(ms) ==> Names(r) == Names(ms) + [k]
  {
    if ms == [] then
      Cons(Member(k, v), []);
      [Member(k, v)]
    else
      Cons(ms[0], ms[1..]);
      assert [ms[0]] + ms[1..] == ms;
      if ms[0].name == k then
        Cons(Member(k, v), ms[1..]);
        [Member(k, v)] + ms[1..]
      else
        var rest := Put(ms[1..], k, v);
        Cons(ms[0], rest);
        [ms[0]] + rest
  }

  /** Writing back the value a property already has changes nothing. */
  lemma {:induction false} PutLookup(ms: seq<Member>, k: string)
    requires k in Names(ms)
    ensures Put(ms, k, Lookup(ms, k)) == ms
  {
    if ms[0].name != k {
      assert Names(ms) == [ms[0].name] + Names(ms[1..]);
      PutLookup(ms[1..], k);
    }
  }

  // ----- String conversion -----

  function DigitChar(d: nat): char
    requires d < 10
  {
    ['0', '1', '2', '3', '4', '5', '6', '7', '8', '9'][d]
  }

  predicate IsDigit(c: char) {
    '0' <= c <= '9'
  }

  /** Decimal text of a natural number, as `String(n)` prints it. */
  function NatToString(n: nat): (r: string)
    ensures r != [] && forall i | 0 <= i < |r| :: IsDigit(r[i])
    ensures r[0] == '0' ==> r == "0"
  {
    if n < 10 then [DigitChar(n)] else NatToString(n / 10) + [DigitChar(n % 10)]
  }

  function IntToString(n: int): string {
    if n < 0 then "-" + NatToString(-n) else NatToString(n)
  }

  function DigitsValue(k: string): nat
    requires forall i | 0 <= i < |k| :: IsDigit(k[i])
  {
    if k == [] then 0
    else
      assert IsDigit(k[|k| - 1]);
      DigitsValue(k[..|k| - 1]) * 10 + (k[|k| - 1] as int - '0' as int)
  }

  /** The array index a property key denotes: canonical decimal text only. */
  function ArrayIndex(k: string): Option<nat> {
    if k != [] && (forall i | 0 <= i < |k| :: IsDigit(k[i])) && (k[0] != '0' || |k| == 1)
    then Some(DigitsValue(k))
    else None
  }

  /** `String(v)` as used for property keys; arrays print as their `join(",")`. */
  function ToPropertyKey(v: Value): string {
    match v
    case Undefined => "undefined"
    case Null => "null"
    case Bool(b) => if b then "true" else "false"
    case Num(n) => IntToString(n)
    case Str(s) => s
    case Arr(items) =>
      Join(seq(|items|, i requires 0 <= i < |items| =>
        if Nullish(items[i]) then "" else ToPropertyKey(items[i])), ',')
    case Obj(_) => "[object Object]"
  }

  /** `v[k]`: reading a property; null and undefined throw a TypeError. */
  function GetProp(v: Value, k: string): Result<Value> {
    match v
    case Undefined => Err(TypeError("Cannot read properties of undefined"))
    case Null => Err(TypeError("Cannot read properties of null"))
    case Obj(ms) => Ok(Lookup(ms, k))
    case Arr(items) =>
      if k == "length" then Ok(Num(|items|))
      else
        (match ArrayIndex(k)
         case Some(i) => Ok(if i < |items| then items[i] else Undefined)
         case None => Ok(Undefined))
    case Str(s) =>
      if k == "length" then Ok(Num(|s|))
      else
        (match ArrayIndex(k)
         case Some(i) => Ok(if i < |s| then Str([s[i]]) else Undefined)
         case None => Ok(Undefined))
    case Bool(_) => Ok(Undefined)
    case Num(_) => Ok(Undefined)
  }

  // ----- Array.prototype.join and String.prototype.split -----

  function Join(parts: seq<string>, sep: char): string {
    if parts == [] then ""
    else if |parts| == 1 then parts[0]
    else parts[0] + [sep] + Join(parts[1..], sep)
  }

  function Split(s: string, sep: char): (r: seq<string>)
    ensures |r| >= 1
  {
    if s == [] then [""]
    else if s[0] == sep then [""] + Split(s[1..], sep)
    else
      var rest := Split(s[1..], sep);
      [[s[0]] + rest[0]] + rest[1..]
  }

  /** Splitting text that has a separator after a separator-free head. */
  lemma {:induction false} SplitAtFirst(a: string, b: string, sep: char)
    requires sep !in a
    ensures Split(a + [sep] + b, sep) == [a] + Split(b, sep)
  {
    if a != [] {
      assert (a + [sep] + b)[1..] == a[1..] + [sep] + b;
      SplitAtFirst(a[1..], b, sep);
      assert [a[0]] + a[1..] == a;
    } else {
      assert a + [sep] + b == [sep] + b;
    }
  }

  lemma {:induction false} SplitNoSeparator(a: string, sep: char)
    requires sep !in a
    ensures Split(a, sep) == [a]
  {
    if a != [] {
      SplitNoSeparator(a[1..], sep);
      assert [a[0]] + a[1..] == a;
    }
  }

  /**
   * Joining non-empty path segments without separators and splitting again
   * gives the segments back.
   */
  lemma {:induction false} SplitJoin(parts: seq<string>, sep: char)
    requires parts != []
    requires forall i | 0 <= i < |parts| :: sep !in parts[i]
    ensures Split(Join(parts, sep), sep) == parts
  {
    if |parts| == 1 {
      SplitNoSeparator(parts[0], sep);
    } else {
      SplitJoin(parts[1..], sep);
      SplitAtFirst(parts[0], Join(parts[1..], sep), sep);
      assert [parts[0]] + parts[1..] == parts;
    }
  }

  /** Every string is the join of its split. */
  lemma {:induction false} JoinSplit(s: string, sep: char)
    ensures Join(Split(s, sep), sep) == s
  {
    if s != [] {
      var rest := Split(s[1..], sep);
      JoinSplit(s[1..], sep);
      if s[0] == sep {
        assert Split(s, sep) == [""] + rest;
        assert Join([""] + rest, sep) == "" + [sep] + Join(rest, sep);
      } else {
        var r := [[s[0]] + rest[0]] + rest[1..];
        assert Split(s, sep) == r;
        if |rest| == 1 {
          assert Join(r, sep) == [s[0]] + rest[0];
          assert Join(rest, sep) == rest[0];
        } else {
          assert r[1..] == rest[1..];
          assert Join(r, sep) == [s[0]] + rest[0] + [sep] + Join(rest[1..], sep);
          assert Join(rest, sep) == rest[0] + [sep] + Join(rest[1..], sep);
        }
        assert [s[0]] + s[1..] == s;
      }
    }
  }
}
