/**
 * Plain dotted-path access, standing in for the utility library's `get` and
 * `set`: a key `"a.b.c"` addresses `data.a.b.c`. Array broadcasting is not
 * part of this model; an array step takes a numeric index.
 */
module DottedPath {
  import opened JsValue

  /** One step of `get`: reading through null or undefined gives undefined. */
  function Child(v: Value, k: string): Value {
    if Nullish(v) then Undefined else GetProp(v, k).value
  }

  /** `get(data, path)`. */
  function Get(v: Value, path: seq<string>): Value
    decreases |path|
  {
    if path == [] then v else Get(Child(v, path[0]), path[1..])
  }

  /** An intermediate node on the way to a write becomes an object when it is no container. */
  function Fill(c: Value, rest: seq<string>): Value {
    if rest == [] || c.Obj? || c.Arr? then c else Obj([])
  }

  /**
   * `set(data, path, x)`: the object member is replaced in place (or added
   * last), an array element is replaced at its index; an intermediate value
   * that is no container becomes `{}` (see `Fill`), while writing into a
   * primitive root, or at an array key that is no index in range, is a no-op.
   */
  function Set(v: Value, path: seq<string>, x: Value): Value
    decreases |path|
  {
    if path == [] then x
    else
      var k, rest := path[0], path[1..];
      match v
      case Obj(ms) => Obj(Put(ms, k, Set(Fill(Lookup(ms, k), rest), rest, x)))
      case Arr(items) =>
        (match ArrayIndex(k)
         case Some(i) => if i < |items| then Arr(items[i := Set(Fill(items[i], rest), rest, x)]) else v
         case None => v)
      case _ => v
  }

  /** The write at `path` lands: every node it passes is an object or an indexed array. */
  predicate Writable(v: Value, path: seq<string>)
    decreases |path|
  {
    if path == [] then true
    else
      var k, rest := path[0], path[1..];
      match v
      case Obj(ms) => Writable(Fill(Lookup(ms, k), rest), rest)
      case Arr(items) =>
        (match ArrayIndex(k)
         case Some(i) => i < |items| && Writable(Fill(items[i], rest), rest)
         case None => false)
      case _ => false
  }

  /** Every step of `path` exists: a member of an object or an element in range. */
  predicate Present(v: Value, path: seq<string>)
    decreases |path|
  {
    if path == [] then true
    else
      var k, rest := path[0], path[1..];
      match v
      case Obj(ms) => k in Names(ms) && Present(Lookup(ms, k), rest)
      case Arr(items) =>
        (match ArrayIndex(k)
         case Some(i) => i < |items| && Present(items[i], rest)
         case None => false)
      case _ => false
  }

  /** Reading back a written path yields the written value. */
  /** One step of a write: below the first key lies the write of the rest. */
  lemma SetChild(v: Value, path: seq<string>, x: Value)
    requires path != [] && Writable(v, path)
    ensures Writable(Fill(Child(v, path[0]), path[1..]), path[1..])
    ensures Child(Set(v, path, x), path[0]) == Set(Fill(Child(v, path[0]), path[1..]), path[1..], x)
  {
    if v.Arr? {
      SetChildArr(v.items, path, x);
    }
  }

  lemma SetChildArr(items: seq<Value>, path: seq<string>, x: Value)
    requires path != [] && Writable(Arr(items), path)
    ensures Writable(Fill(Child(Arr(items), path[0]), path[1..]), path[1..])
    ensures Child(Set(Arr(items), path, x), path[0]) == Set(Fill(Child(Arr(items), path[0]), path[1..]), path[1..], x)
  {
    var k, rest := path[0], path[1..];
    var i := ArrayIndex(k).value;
    assert Child(Arr(items), k) == items[i];
    assert Set(Arr(items), path, x) == Arr(items[i := Set(Fill(items[i], rest), rest, x)]);
  }

  lemma {:induction false} GetSet(v: Value, path: seq<string>, x: Value)
    requires Writable(v, path)
    ensures Get(Set(v, path, x), path) == x
    decreases |path|
  {
    if path != [] {
      SetChild(v, path, x);
      GetSet(Fill(Child(v, path[0]), path[1..]), path[1..], x);
    }
  }

  /** Writing back what an existing path holds leaves the tree as it was. */
  lemma {:induction false} SetGet(v: Value, path: seq<string>)
    requires Present(v, path)
    ensures Set(v, path, Get(v, path)) == v
    decreases |path|
  {
    if path != [] {
      var k, rest := path[0], path[1..];
      match v
      case Obj(ms) =>
        var c := Lookup(ms, k);
        SetGet(c, rest);
        assert Fill(c, rest) == c;
        PutLookup(ms, k);
      case Arr(items) =>
        var i := ArrayIndex(k).value;
        SetGet(items[i], rest);
        assert Fill(items[i], rest) == items[i];
        assert items[i := items[i]] == items;
    }
  }

  /** Writing below member `a` of an object does not change member `b`. */
  lemma SetSiblingHere(ms: seq<Member>, a: string, p: seq<string>, b: string, q: seq<string>, x: Value)
    requires a != b
    ensures Get(Set(Obj(ms), [a] + p, x), [b] + q) == Get(Obj(ms), [b] + q)
  {
    assert ([a] + p)[0] == a && ([a] + p)[1..] == p;
    assert ([b] + q)[0] == b && ([b] + q)[1..] == q;
    var ms' := Put(ms, a, Set(Fill(Lookup(ms, a), p), p, x));
    assert Set(Obj(ms), [a] + p, x) == Obj(ms');
    assert Lookup(ms', b) == Lookup(ms, b);
  }

  /** A write below an existing step `k` is a write into the child at `k`. */
  lemma SetDescend(v: Value, k: string, tail: seq<string>, x: Value)
    requires Present(v, [k]) && Fill(Child(v, k), tail) == Child(v, k)
    ensures Child(Set(v, [k] + tail, x), k) == Set(Child(v, k), tail, x)
  {
    assert ([k] + tail)[0] == k && ([k] + tail)[1..] == tail;
    assert [k][1..] == [];
  }

  /**
   * A write below one member of an object reached along existing steps
   * leaves what is read below any other member of that object unchanged.
   */
  lemma {:induction false} SetLeavesSiblings(v: Value, c: seq<string>, a: string, p: seq<string>,
                                             b: string, q: seq<string>, x: Value)
    requires Present(v, c) && Get(v, c).Obj? && a != b
    ensures Get(Set(v, c + [a] + p, x), c + [b] + q) == Get(v, c + [b] + q)
    decreases |c|
  {
    if c == [] {
      assert c + [a] + p == [a] + p && c + [b] + q == [b] + q;
      SetSiblingHere(v.members, a, p, b, q, x);
    } else {
      var k, rest := c[0], c[1..];
      var tailA, tailB := rest + [a] + p, rest + [b] + q;
      assert c + [a] + p == [k] + tailA && c + [b] + q == [k] + tailB;
      var child := Child(v, k);
      assert Present(v, [k]) && Present(child, rest) by {
        assert [k][1..] == [];
      }
      assert Get(v, c) == Get(child, rest);
      assert Fill(child, tailA) == child;
      SetDescend(v, k, tailA, x);
      SetLeavesSiblings(child, rest, a, p, b, q, x);
      calc {
        Get(Set(v, [k] + tailA, x), [k] + tailB);
        Get(Child(Set(v, [k] + tailA, x), k), tailB);
        Get(Set(child, tailA, x), tailB);
        Get(child, tailB);
        Get(v, [k] + tailB);
      }
    }
  }
}
