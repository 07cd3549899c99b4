/** Reference definitions of what the container operations do to the
    sequence of payloads, and how they relate to each other. */
module ListSpec {

  /** `objs` placed, in order, before position `pos` of `v`. */
  ghost function Inserted<T>(v: seq<T>, pos: int, objs: seq<T>): (r: seq<T>)
    requires 0 <= pos <= |v|
    ensures |r| == |v| + |objs|
    ensures forall k :: 0 <= k < pos ==> r[k] == v[k]
    ensures forall k :: 0 <= k < |objs| ==> r[pos + k] == objs[k]
    ensures forall k :: pos <= k < |v| ==> r[k + |objs|] == v[k]
  {
    v[..pos] + objs + v[pos..]
  }

  /** `v` without its element at `pos`; the later ones move down by one. */
  ghost function Removed<T>(v: seq<T>, pos: int): (r: seq<T>)
    requires 0 <= pos < |v|
    ensures |r| == |v| - 1
    ensures forall k :: 0 <= k < pos ==> r[k] == v[k]
    ensures forall k :: pos <= k < |r| ==> r[k] == v[k + 1]
  {
    v[..pos] + v[pos + 1..]
  }

  /** Inserting at the end is appending. */
  lemma InsertAtEndAppends<T>(v: seq<T>, objs: seq<T>)
    ensures Inserted(v, |v|, objs) == v + objs
  {
  }

  /** Removing what was just inserted gives back the original. */
  lemma RemoveUndoesInsert<T>(v: seq<T>, pos: int, x: T)
    requires 0 <= pos <= |v|
    ensures Removed(Inserted(v, pos, [x]), pos) == v
  {
    var w := Removed(Inserted(v, pos, [x]), pos);
    forall k | 0 <= k < |v| ensures w[k] == v[k] {
      if k >= pos {
        assert w[k] == Inserted(v, pos, [x])[k + 1];
      }
    }
  }

  /** Re-inserting the removed element at its place gives back the original. */
  lemma InsertUndoesRemove<T>(v: seq<T>, pos: int)
    requires 0 <= pos < |v|
    ensures Inserted(Removed(v, pos), pos, [v[pos]]) == v
  {
    var w := Inserted(Removed(v, pos), pos, [v[pos]]);
    forall k | 0 <= k < |v| ensures w[k] == v[k] {
      if k > pos {
        assert w[k] == Removed(v, pos)[k - 1];
      }
    }
  }

  /** Inserting one object after another is inserting both at once. */
  lemma InsertedTwice<T>(v: seq<T>, pos: int, objs: seq<T>, x: T)
    requires 0 <= pos <= |v|
    ensures Inserted(Inserted(v, pos, objs), pos + |objs|, [x]) == Inserted(v, pos, objs + [x])
  {
    var w := Inserted(v, pos, objs);
    assert w[..pos + |objs|] == v[..pos] + objs;
    assert w[pos + |objs|..] == v[pos..];
  }

  /** Taking one more element of a sequence appends that element. */
  lemma TakeOneMore<T>(s: seq<T>, i: int)
    requires 0 <= i < |s|
    ensures s[..i + 1] == s[..i] + [s[i]]
  {
  }

  /** The marks of `n` freshly made nodes: all unset. */
  function Unset(n: nat): (r: seq<bool>)
    ensures |r| == n && forall k :: 0 <= k < n ==> !r[k]
  {
    if n == 0 then [] else Unset(n - 1) + [false]
  }

  /** `a` unset marks followed by `b` more. */
  lemma {:induction false} UnsetConcat(a: nat, b: nat)
    ensures Unset(a) + Unset(b) == Unset(a + b)
  {
    if b > 0 {
      UnsetConcat(a, b - 1);
      assert Unset(a) + Unset(b) == Unset(a) + Unset(b - 1) + [false];
    }
  }

  /** One more object appended in a fresh node: the payloads the list
      started with plus `objects[..i + 1]`, the marks plus `i + 1` unset
      ones, the nodes it started with still in front. */
  lemma AppendRound<T, N>(v0: seq<T>, objects: seq<T>, i: int, m0: seq<bool>, s0: seq<N>, s: seq<N>, x: N)
    requires 0 <= i < |objects| && |s0| <= |s| && s[..|s0|] == s0
    ensures (v0 + objects[..i]) + [objects[i]] == v0 + objects[..i + 1]
    ensures (m0 + Unset(i)) + [false] == m0 + Unset(i + 1)
    ensures (s + [x])[..|s0|] == s0
  {
    TakeOneMore(objects, i);
    assert (s + [x])[..|s0|] == s[..|s0|];
  }

  /** Extending a slice by one element appends that element. */
  lemma SliceOneMore<T>(s: seq<T>, a: int, b: int)
    requires 0 <= a <= b < |s|
    ensures s[a..b + 1] == s[a..b] + [s[b]]
  {
  }

  /** Inserting one more unset mark after `n` inserted ones. */
  lemma UnsetInsertedTwice(m: seq<bool>, pos: int, n: nat)
    requires 0 <= pos <= |m|
    ensures Inserted(Inserted(m, pos, Unset(n)), pos + n, [false]) == Inserted(m, pos, Unset(n + 1))
  {
    InsertedTwice(m, pos, Unset(n), false);
  }

  /** The pairs (index, payload) of `v`, in list order. */
  ghost function Indexed<T>(v: seq<T>): (r: seq<(int, T)>)
    ensures |r| == |v| && forall k :: 0 <= k < |v| ==> r[k] == (k, v[k])
  {
    seq(|v|, k requires 0 <= k < |v| => (k, v[k]))
  }

  /** Every payload replaced by `change` of its index and itself. */
  ghost function Modified<T>(v: seq<T>, change: (int, T) -> T): (r: seq<T>)
    ensures |r| == |v| && forall k :: 0 <= k < |v| ==> r[k] == change(k, v[k])
  {
    seq(|v|, k requires 0 <= k < |v| => change(k, v[k]))
  }

  /** `Modified` applied `n` times over. */
  ghost function ModifiedTimes<T>(v: seq<T>, change: (int, T) -> T, n: nat): (r: seq<T>)
    ensures |r| == |v|
  {
    if n == 0 then v else Modified(ModifiedTimes(v, change, n - 1), change)
  }

  /** `b` more rounds after `a` rounds are `a + b` rounds. */
  lemma {:induction false} ModifiedTimesAdd<T>(v: seq<T>, change: (int, T) -> T, a: nat, b: nat)
    ensures ModifiedTimes(ModifiedTimes(v, change, a), change, b) == ModifiedTimes(v, change, a + b)
  {
    if b > 0 {
      ModifiedTimesAdd(v, change, a, b - 1);
    }
  }

  function Increment(i: int, x: int): int {
    x + 1
  }

  /** `n` rounds of adding one raise every element by `n`. */
  lemma {:induction false} IncrementTimes(v: seq<int>, n: nat)
    ensures forall k :: 0 <= k < |v| ==> ModifiedTimes(v, Increment, n)[k] == v[k] + n
  {
    if n > 0 {
      IncrementTimes(v, n - 1);
    }
  }

  /** The payloads of `v` that `accept` takes, given with their index, in
      order. */
  ghost function Found<T>(v: seq<T>, accept: (int, T) -> bool): seq<T> {
    if v == [] then []
    else Found(v[..|v| - 1], accept) + (if accept(|v| - 1, v[|v| - 1]) then [v[|v| - 1]] else [])
  }

  /** One more payload looked at. */
  lemma FoundStep<T>(v: seq<T>, i: int, accept: (int, T) -> bool)
    requires 0 <= i < |v|
    ensures Found(v[..i + 1], accept) == Found(v[..i], accept) + (if accept(i, v[i]) then [v[i]] else [])
  {
    assert v[..i + 1][..i] == v[..i];
  }

  /** No more payloads are found than there are; a payload is found
      exactly when `accept` takes it at some index that holds it. */
  lemma {:induction false} FoundMeans<T>(v: seq<T>, accept: (int, T) -> bool)
    ensures |Found(v, accept)| <= |v|
    ensures forall x :: x in Found(v, accept) ==> exists k :: 0 <= k < |v| && v[k] == x && accept(k, x)
    ensures forall k :: 0 <= k < |v| && accept(k, v[k]) ==> v[k] in Found(v, accept)
  {
    if v != [] {
      var n := |v| - 1;
      FoundMeans(v[..n], accept);
      forall x | x in Found(v, accept)
        ensures exists k :: 0 <= k < |v| && v[k] == x && accept(k, x)
      {
        var w := v[..n];
        if x in Found(w, accept) {
          var k :| 0 <= k < |w| && w[k] == x && accept(k, x);
          assert v[k] == x;
        } else {
          assert v[n] == x && accept(n, x);
        }
      }
      forall k | 0 <= k < |v| && accept(k, v[k])
        ensures v[k] in Found(v, accept)
      {
        if k < n {
          assert v[..n][k] == v[k];
        }
      }
    }
  }

  /** A test that accepts everything finds every payload. */
  lemma {:induction false} FoundAll<T>(v: seq<T>, accept: (int, T) -> bool)
    requires forall k :: 0 <= k < |v| ==> accept(k, v[k])
    ensures Found(v, accept) == v
  {
    if v != [] {
      var n := |v| - 1;
      var w := v[..n];
      forall k | 0 <= k < |w|
        ensures accept(k, w[k])
      {
        assert w[k] == v[k];
      }
      FoundAll(w, accept);
      assert accept(n, v[n]);
      assert w + [v[n]] == v;
    }
  }

  /** What a traversal hands to `visit`: the items in order, up to and
      including the first one `visit` answers false to. */
  ghost function Delivered<U>(items: seq<U>, visit: U -> bool): seq<U> {
    if items == [] then []
    else if visit(items[0]) then [items[0]] + Delivered(items[1..], visit)
    else [items[0]]
  }

  /** A traversal delivers a prefix of the items; every delivered item but
      the last was answered true, and it stops early only after a false. */
  lemma {:induction false} DeliveredPrefix<U>(items: seq<U>, visit: U -> bool)
    ensures |Delivered(items, visit)| <= |items|
    ensures Delivered(items, visit) == items[..|Delivered(items, visit)|]
    ensures forall k :: 0 <= k < |Delivered(items, visit)| - 1 ==> visit(items[k])
    ensures |Delivered(items, visit)| < |items| ==>
      |Delivered(items, visit)| > 0 && !visit(items[|Delivered(items, visit)| - 1])
  {
    if items != [] && visit(items[0]) {
      DeliveredPrefix(items[1..], visit);
      var r := Delivered(items[1..], visit);
      assert items[1..][..|r|] == items[1..|r| + 1];
      forall k | 0 <= k < |r| + 1 - 1
        ensures visit(items[k])
      {
        if k > 0 {
          assert items[k] == items[1..][k - 1];
        }
      }
    }
  }

  /** When `visit` answers true throughout, everything is delivered. */
  lemma {:induction false} DeliveredAll<U>(items: seq<U>, visit: U -> bool)
    requires forall k :: 0 <= k < |items| ==> visit(items[k])
    ensures Delivered(items, visit) == items
  {
    if items != [] {
      assert visit(items[0]);
      DeliveredAll(items[1..], visit);
    }
  }

  /** One step of a traversal. */
  lemma DeliveredStep<U>(items: seq<U>, i: int, visit: U -> bool)
    requires 0 <= i < |items|
    ensures Delivered(items[i..], visit) ==
      [items[i]] + (if visit(items[i]) then Delivered(items[i + 1..], visit) else [])
  {
    assert items[i..][0] == items[i];
    assert items[i..][1..] == items[i + 1..];
  }

  /** A traversal that has delivered `items[..i]` and now delivers item `i`:
      if `visit` answers true it goes on from `i + 1`, otherwise it is done. */
  lemma DeliveredAdvance<U>(items: seq<U>, i: int, out: seq<U>, visit: U -> bool)
    requires 0 <= i < |items| && out == items[..i]
    requires Delivered(items, visit) == out + Delivered(items[i..], visit)
    ensures out + [items[i]] == items[..i + 1]
    ensures visit(items[i]) ==>
      Delivered(items, visit) == (out + [items[i]]) + Delivered(items[i + 1..], visit)
    ensures !visit(items[i]) ==> Delivered(items, visit) == out + [items[i]]
  {
    DeliveredStep(items, i, visit);
    TakeOneMore(items, i);
  }

  /** A traversal that has reached the end has delivered everything it will. */
  lemma DeliveredEnd<U>(items: seq<U>, out: seq<U>, visit: U -> bool)
    requires Delivered(items, visit) == out + Delivered(items[|items|..], visit)
    ensures Delivered(items, visit) == out
  {
    assert items[|items|..] == [];
  }
}
