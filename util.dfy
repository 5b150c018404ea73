/**
 * The helpers the shaping code takes from its utility library, defined here
 * explicitly: `ensureArray`, `uvl`, `pairs`, one-level `flat`, and the
 * `reduce` + `Object.assign` idiom that builds an object from named values.
 */
module Util {
  import opened JsValue

  /** `Util.ensureArray`: an array as it is, any other value wrapped in one. */
  function EnsureArray(v: Value): seq<Value> {
    if v.Arr? then v.items else [v]
  }

  /** `Util.uvl(a, b)`: the first of the two that is not undefined. */
  function Uvl(a: Value, b: Value): Value {
    if a != Undefined then a else b
  }

  /** Concatenation regroups freely; stated once so that larger proofs need not rediscover it. */
  lemma AppendAssoc<T>(x: seq<T>, y: seq<T>, z: seq<T>)
    ensures x + y + z == x + (y + z)
  {
  }

  lemma AppendEmpty<T>(x: seq<T>)
    ensures [] + x == x
  {
  }

  function Min(a: int, b: int): int {
    if a < b then a else b
  }

  /**
   * `Util.pairs`: consecutive groups of two; when the length is odd the last
   * group holds one element.
   */
  function Pairs(s: seq<Value>): (r: seq<seq<Value>>)
    ensures |r| == (|s| + 1) / 2
  {
    if |s| <= 2 then
      (if s == [] then [] else [s])
    else
      [s[..2]] + Pairs(s[2..])
  }

  /** Group `i` holds the elements at `2 * i` and, when present, `2 * i + 1`. */
  lemma {:induction false} PairAt(s: seq<Value>, i: nat)
    requires i < |Pairs(s)|
    ensures 2 * i < |s| && Pairs(s)[i] == s[2 * i .. Min(2 * i + 2, |s|)]
  {
    if i > 0 {
      var t := s[2..];
      assert Pairs(s)[i] == Pairs(t)[i - 1];
      PairAt(t, i - 1);
      var lo, hi := 2 * (i - 1), Min(2 * (i - 1) + 2, |t|);
      assert lo + 2 == 2 * i && hi + 2 == Min(2 * i + 2, |s|);
      assert |t[lo..hi]| == |s[lo + 2..hi + 2]|;
      forall x | 0 <= x < hi - lo ensures t[lo..hi][x] == s[lo + 2..hi + 2][x] {
        assert t[lo + x] == s[lo + 2 + x];
      }
      assert t[lo..hi] == s[lo + 2..hi + 2];
    }
  }

  function Concat(ss: seq<seq<Value>>): seq<Value> {
    if ss == [] then [] else ss[0] + Concat(ss[1..])
  }

  /** Pairing loses and adds nothing: the groups concatenate to the input. */
  lemma {:induction false} PairsConcat(s: seq<Value>)
    ensures Concat(Pairs(s)) == s
  {
    if |s| > 2 {
      PairsConcat(s[2..]);
      assert [s[..2]] + Pairs(s[2..]) == Pairs(s);
      assert s[..2] + s[2..] == s;
    }
  }

  /** A prefix of even length is paired on its own. */
  lemma {:induction false} PairsAppend(a: seq<Value>, b: seq<Value>)
    requires |a| % 2 == 0
    ensures Pairs(a + b) == Pairs(a) + Pairs(b)
  {
    if a != [] {
      assert (a + b)[2..] == a[2..] + b;
      assert (a + b)[..2] == a[..2];
      PairsAppend(a[2..], b);
      if |a| == 2 {
        assert a[2..] == [];
        assert a[2..] + b == b;
        assert Pairs(a) == [a];
        if b == [] {
          assert a + b == a;
        } else {
          assert Pairs(a + b) == [(a + b)[..2]] + Pairs((a + b)[2..]);
        }
      }
    } else {
      assert a + b == b;
    }
  }

  /** `args.flat()`: array arguments are spread one level, others kept. */
  function Flat(s: seq<Value>): seq<Value> {
    if s == [] then [] else EnsureArray(s[0]) + Flat(s[1..])
  }

  lemma {:induction false} FlatMembers(s: seq<Value>, x: Value)
    ensures x in Flat(s) <==> exists i :: 0 <= i < |s| && x in EnsureArray(s[i])
  {
    if s != [] {
      FlatMembers(s[1..], x);
      if x in Flat(s) && x !in EnsureArray(s[0]) {
        var i :| 0 <= i < |s[1..]| && x in EnsureArray(s[1..][i]);
        assert x in EnsureArray(s[i + 1]);
      }
      if x !in Flat(s) {
        forall i | 0 <= i < |s| ensures x !in EnsureArray(s[i]) {
          if i > 0 { assert s[i] == s[1..][i - 1]; }
        }
      }
    }
  }

  /** No later member has the name of member `i`. */
  predicate LastNamed(ms: seq<Member>, i: int)
    requires 0 <= i < |ms|
  {
    forall j | i < j < |ms| :: ms[j].name != ms[i].name
  }

  /**
   * `list.reduce((prev, m) => Object.assign(prev, { [m.name]: m.val }), {})`:
   * one property per distinct name, in the order the names first appear.
   */
  function Assign(ms: seq<Member>): (r: seq<Member>)
    ensures Distinct(Names(r))
    ensures forall k :: k in Names(r) <==> k in Names(ms)
  {
    if ms == [] then []
    else
      var init := ms[..|ms| - 1];
      var last := ms[|ms| - 1];
      assert Names(ms) == Names(init) + [last.name];
      Put(Assign(init), last.name, last.val)
  }

  /** One more member is one more `Object.assign`. */
  lemma AssignSnoc(ms: seq<Member>, m: Member)
    ensures Assign(ms + [m]) == Put(Assign(ms), m.name, m.val)
  {
    assert (ms + [m])[..|ms|] == ms;
  }

  /** Each property holds the value of the last member with its name. */
  lemma {:induction false} AssignLast(ms: seq<Member>, i: nat)
    requires i < |ms| && LastNamed(ms, i)
    ensures Lookup(Assign(ms), ms[i].name) == ms[i].val
  {
    var init := ms[..|ms| - 1];
    var last := ms[|ms| - 1];
    assert Assign(ms) == Put(Assign(init), last.name, last.val);
    if i < |ms| - 1 {
      assert last.name != ms[i].name;
      assert init[i] == ms[i];
      assert LastNamed(init, i) by {
        forall j | i < j < |init| ensures init[j].name != init[i].name {
          assert init[j] == ms[j];
        }
      }
      AssignLast(init, i);
    }
  }
}
