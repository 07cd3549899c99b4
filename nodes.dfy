/** The element of the doubly-linked list (xlistObj in xlist.go) and the shape
    of a chain of such elements. A chain is described by the ghost sequence of
    its nodes in list order; every predicate here reads only the fields it
    depends on, so that an operation that writes payloads leaves the links
    visibly untouched and the other way round. */
module Nodes {

  class Node<T> {
    var next: Node?<T>
    var prev: Node?<T>
    var mark: bool
    var obj: T

    /** A fresh, unlinked and unmarked node holding `obj`. */
    constructor (obj: T)
      ensures this.obj == obj && next == null && prev == null && !mark
    {
      this.obj := obj;
      next := null;
      prev := null;
      mark := false;
    }
  }

  /** Consecutive nodes point at each other in both directions. Each link is
      triggered by the field read it describes, so that knowing the node at
      one position never by itself produces the node at the next. */
  ghost predicate Linked<T>(s: seq<Node<T>>)
    reads s`next, s`prev
  {
    (forall k {:trigger s[k].next} :: 0 <= k < |s| - 1 ==> s[k].next == s[k + 1]) &&
    (forall k {:trigger s[k].prev} :: 0 < k < |s| ==> s[k].prev == s[k - 1])
  }

  /** Positions `a` and `b` hold different nodes. */
  ghost predicate Apart<T>(s: seq<Node<T>>, a: int, b: int)
    requires 0 <= a < |s| && 0 <= b < |s|
  {
    s[a] != s[b]
  }

  /** No node occurs twice (the chain has no cycle). The quantifier is
      triggered only by `Apart`, so that it is instantiated for the pairs a
      proof asks about rather than for every pair of positions in sight;
      `DistinctAt` asks. */
  ghost predicate Distinct<T>(s: seq<Node<T>>) {
    forall a, b {:trigger Apart(s, a, b)} :: 0 <= a < b < |s| ==> Apart(s, a, b)
  }

  lemma DistinctAt<T>(s: seq<Node<T>>, a: int, b: int)
    requires Distinct(s) && 0 <= a < |s| && 0 <= b < |s| && a != b
    ensures s[a] != s[b]
  {
    if a < b {
      assert Apart(s, a, b);
    } else {
      assert Apart(s, b, a);
    }
  }

  /** A whole list: linked, acyclic, with no predecessor of the first node and
      no successor of the last. */
  ghost predicate Chain<T>(s: seq<Node<T>>)
    reads s`next, s`prev
  {
    Linked(s) && Distinct(s) &&
    (|s| > 0 ==> s[0].prev == null && s[|s| - 1].next == null)
  }

  /** The node at position `k`, or null outside the chain. */
  ghost function NodeAt<T>(s: seq<Node<T>>, k: int): Node?<T> {
    if 0 <= k < |s| then s[k] else null
  }

  /** The chain `s` holds the payloads `v`, position by position. Proofs that
      change payloads step by step carry `v` as a ghost value beside the
      chain, which keeps each step's reasoning about the heap to one fact. */
  ghost predicate Stores<T>(s: seq<Node<T>>, v: seq<T>)
    reads s`obj
  {
    |v| == |s| && forall k {:trigger v[k]} :: 0 <= k < |s| ==> s[k].obj == v[k]
  }

  /** The chain `s` carries the marks `m`, position by position. */
  ghost predicate Flags<T>(s: seq<Node<T>>, m: seq<bool>)
    reads s`mark
  {
    |m| == |s| && forall k {:trigger m[k]} :: 0 <= k < |s| ==> s[k].mark == m[k]
  }

  /** Stepping from the node at `k` forward or backward reaches the node at
      `k + 1` or `k - 1`, or null at either end. */
  lemma ChainStep<T>(s: seq<Node<T>>, k: int)
    requires Chain(s) && 0 <= k < |s|
    ensures s[k].next == NodeAt(s, k + 1)
    ensures s[k].prev == NodeAt(s, k - 1)
  {
  }

  /** The two directions of the links agree: `x.next == y` exactly when
      `y.prev == x`, for any two nodes of a chain. */
  lemma NextIffPrev<T>(s: seq<Node<T>>, i: int, j: int)
    requires Chain(s) && 0 <= i < |s| && 0 <= j < |s|
    ensures s[i].next == s[j] <==> s[j].prev == s[i]
  {
    if s[i].next == s[j] {
      assert i < |s| - 1 && s[i + 1] == s[j];
      SameNodeSameIndex(s, i + 1, j);
    }
    if s[j].prev == s[i] {
      assert j > 0 && s[j - 1] == s[i];
      SameNodeSameIndex(s, i, j - 1);
    }
  }

  /** Node identity determines position. */
  lemma SameNodeSameIndex<T>(s: seq<Node<T>>, i: int, j: int)
    requires Distinct(s) && 0 <= i < |s| && 0 <= j < |s| && s[i] == s[j]
    ensures i == j
  {
    if i != j {
      DistinctAt(s, i, j);
    }
  }

  /** A node `n` not in the chain `s`, linked in front of position `pos`,
      gives the chain with `n` at `pos`. The requirements list the links as
      they stand after relinking: all of `s`'s own links but the two that
      now lead to `n`. */
  lemma ChainInsert<T>(s: seq<Node<T>>, pos: int, n: Node<T>)
    requires 0 <= pos < |s| && Distinct(s) && n !in s
    requires forall k {:trigger s[k].next} :: 0 <= k < |s| - 1 && k != pos - 1 ==> s[k].next == s[k + 1]
    requires forall k {:trigger s[k].prev} :: 0 < k < |s| && k != pos ==> s[k].prev == s[k - 1]
    requires pos > 0 ==> s[pos - 1].next == n
    requires n.next == s[pos] && n.prev == NodeAt(s, pos - 1) && s[pos].prev == n
    requires pos > 0 ==> s[0].prev == null
    requires s[|s| - 1].next == null
    ensures Chain(s[..pos] + [n] + s[pos..])
  {
    var t := s[..pos] + [n] + s[pos..];
    forall k | 0 <= k < |t| - 1
      ensures t[k].next == t[k + 1]
    {
      if k > pos {
        assert t[k] == s[k - 1];
      }
    }
    forall k | 0 < k < |t|
      ensures t[k].prev == t[k - 1]
    {
      if k > pos + 1 {
        assert t[k] == s[k - 1];
      }
    }
    forall a, b | 0 <= a < b < |t|
      ensures Apart(t, a, b)
    {
      if a != pos && b != pos {
        DistinctAt(s, if a < pos then a else a - 1, if b < pos then b else b - 1);
      }
    }
  }

  /** Bypassing position `pos` of a chain gives the chain without it. The
      requirements are the links after the bypass. */
  lemma ChainRemove<T>(s: seq<Node<T>>, pos: int)
    requires 0 <= pos < |s| && Distinct(s)
    requires forall k {:trigger s[k].next} :: 0 <= k < |s| - 1 && k != pos - 1 ==> s[k].next == s[k + 1]
    requires forall k {:trigger s[k].prev} :: 0 < k < |s| && k != pos + 1 ==> s[k].prev == s[k - 1]
    requires 0 < pos < |s| - 1 ==> s[pos - 1].next == s[pos + 1] && s[pos + 1].prev == s[pos - 1]
    requires pos == 0 < |s| - 1 ==> s[1].prev == null
    requires 0 < pos == |s| - 1 ==> s[pos - 1].next == null
    requires pos > 0 ==> s[0].prev == null
    requires pos < |s| - 1 ==> s[|s| - 1].next == null
    ensures Chain(s[..pos] + s[pos + 1..])
  {
    var t := s[..pos] + s[pos + 1..];
    forall k | 0 <= k < |t| - 1
      ensures t[k].next == t[k + 1]
    {
      if k >= pos {
        assert t[k] == s[k + 1];
      }
    }
    forall k | 0 < k < |t|
      ensures t[k].prev == t[k - 1]
    {
      if k > pos {
        assert t[k] == s[k + 1];
      }
    }
    forall a, b | 0 <= a < b < |t|
      ensures Apart(t, a, b)
    {
      DistinctAt(s, if a < pos then a else a + 1, if b < pos then b else b + 1);
    }
  }

  /** Links `lobj`, a node outside the chain, in front of `xobj`, the node
      at `pos`: the two links that met at `xobj` now meet at `lobj`. */
  method LinkBefore<T>(ghost s: seq<Node<T>>, pos: int, xobj: Node<T>, lobj: Node<T>)
    requires Chain(s) && 0 <= pos < |s| && xobj == s[pos] && lobj !in s
    modifies lobj`next, lobj`prev, xobj`prev, {xobj.prev}`next
    ensures Chain(s[..pos] + [lobj] + s[pos..])
  {
    var p := xobj.prev;
    lobj.next := xobj;
    lobj.prev := p;
    xobj.prev := lobj;
    if p == null {
      forall k | 0 <= k < |s| - 1
        ensures s[k].next == s[k + 1]
      {
        assert old(s[k].next) == s[k + 1];
      }
      forall k | 0 < k < |s|
        ensures s[k].prev == s[k - 1]
      {
        DistinctAt(s, k, pos);
        assert old(s[k].prev) == s[k - 1];
      }
      ChainInsert(s, pos, lobj);
      return;
    }
    p.next := lobj;
    forall k | 0 <= k < |s| - 1 && k != pos - 1
      ensures s[k].next == s[k + 1]
    {
      DistinctAt(s, k, pos - 1);
      assert old(s[k].next) == s[k + 1];
    }
    forall k | 0 < k < |s| && k != pos
      ensures s[k].prev == s[k - 1]
    {
      DistinctAt(s, k, pos);
      assert old(s[k].prev) == s[k - 1];
    }
    DistinctAt(s, 0, pos);
    DistinctAt(s, |s| - 1, pos - 1);
    ChainInsert(s, pos, lobj);
  }

  /** Links `lobj`, an unlinked node outside the chain, after `last`, the
      chain's last node. */
  method LinkLast<T>(ghost s: seq<Node<T>>, last: Node<T>, lobj: Node<T>) returns (ghost t: seq<Node<T>>)
    requires Chain(s) && |s| > 0 && last == s[|s| - 1] && lobj !in s && lobj.next == null
    modifies lobj`prev, last`next
    ensures t == s + [lobj] && Chain(t)
  {
    ghost var n := |s| - 1;
    lobj.prev := last;
    last.next := lobj;
    t := s + [lobj];
    forall k | 0 <= k < n
      ensures t[k].next == t[k + 1]
    {
      DistinctAt(s, k, n);
    }
    forall a, b | 0 <= a < b < |t|
      ensures Apart(t, a, b)
    {
      if b < n + 1 {
        DistinctAt(s, a, b);
      }
    }
  }

  /** Takes the node at `pos` out of the chain: its neighbours now point at
      each other. The node's own links are left as they were. */
  method Unlink<T>(ghost s: seq<Node<T>>, pos: int, xobj: Node<T>)
    requires Chain(s) && 0 <= pos < |s| && xobj == s[pos]
    modifies {xobj.prev}`next, {xobj.next}`prev
    ensures Chain(s[..pos] + s[pos + 1..])
  {
    var p, nx := xobj.prev, xobj.next;
    ghost var last := |s| - 1;
    if p != null {
      p.next := nx;
    }
    if nx != null {
      nx.prev := p;
    }
    forall k | 0 <= k < last && k != pos - 1
      ensures s[k].next == s[k + 1]
    {
      if pos > 0 {
        DistinctAt(s, k, pos - 1);
      }
      assert old(s[k].next) == s[k + 1];
    }
    forall k | 0 < k <= last && k != pos + 1
      ensures s[k].prev == s[k - 1]
    {
      if pos < last {
        DistinctAt(s, k, pos + 1);
      }
      assert old(s[k].prev) == s[k - 1];
    }
    if pos > 0 && pos < last {
      DistinctAt(s, 0, pos + 1);
      DistinctAt(s, last, pos - 1);
    }
    ChainRemove(s, pos);
  }

  /** No node of `s` is a node of `t`. */
  ghost predicate Disjoint<T>(s: seq<Node<T>>, t: seq<Node<T>>) {
    forall x :: x in s ==> x !in t
  }

  /** Two chains with no node in common, the last node of `s` now linked
      to the first of `t`, form one chain. The requirements list the links
      as they stand after relinking. */
  lemma ChainJoin<T>(s: seq<Node<T>>, t: seq<Node<T>>)
    requires |s| > 0 && |t| > 0 && Distinct(s) && Distinct(t) && Disjoint(s, t)
    requires forall k {:trigger s[k].next} :: 0 <= k < |s| - 1 ==> s[k].next == s[k + 1]
    requires forall k {:trigger s[k].prev} :: 0 < k < |s| ==> s[k].prev == s[k - 1]
    requires forall k {:trigger t[k].next} :: 0 <= k < |t| - 1 ==> t[k].next == t[k + 1]
    requires forall k {:trigger t[k].prev} :: 0 < k < |t| ==> t[k].prev == t[k - 1]
    requires s[|s| - 1].next == t[0] && t[0].prev == s[|s| - 1]
    requires s[0].prev == null && t[|t| - 1].next == null
    ensures Chain(s + t)
  {
    var u := s + t;
    forall k | 0 <= k < |u| - 1
      ensures u[k].next == u[k + 1]
    {
      if k >= |s| {
        assert u[k] == t[k - |s|] && u[k + 1] == t[k - |s| + 1];
      }
    }
    forall k | 0 < k < |u|
      ensures u[k].prev == u[k - 1]
    {
      if k > |s| {
        assert u[k] == t[k - |s|] && u[k - 1] == t[k - |s| - 1];
      }
    }
    forall a, b | 0 <= a < b < |u|
      ensures Apart(u, a, b)
    {
      if b < |s| {
        DistinctAt(s, a, b);
      } else if a >= |s| {
        DistinctAt(t, a - |s|, b - |s|);
      } else {
        assert u[a] == s[a] && u[b] == t[b - |s|];
        assert s[a] in s && t[b - |s|] in t;
      }
    }
  }

  /** Links the chain `t` after the chain `s`: `last`, the last node of
      `s`, and `first`, the first of `t`, now point at each other. */
  method LinkRun<T>(ghost s: seq<Node<T>>, ghost t: seq<Node<T>>, last: Node<T>, first: Node<T>)
    requires Chain(s) && Chain(t) && |s| > 0 && |t| > 0 && Disjoint(s, t)
    requires last == s[|s| - 1] && first == t[0]
    modifies last`next, first`prev
    ensures Chain(s + t)
  {
    last.next := first;
    first.prev := last;
    forall k | 0 <= k < |s| - 1
      ensures s[k].next == s[k + 1]
    {
      DistinctAt(s, k, |s| - 1);
      assert old(s[k].next) == s[k + 1];
    }
    forall k | 0 < k < |t|
      ensures t[k].prev == t[k - 1]
    {
      DistinctAt(t, k, 0);
      assert old(t[k].prev) == t[k - 1];
    }
    assert s[|s| - 1] in s && t[0] in t;
    ChainJoin(s, t);
  }

  /** The chain `t`, with no node in common with the chain `s`, linked in
      front of position `pos` of `s`, gives the chain with `t` at `pos`. The
      requirements list the links as they stand after relinking. */
  lemma ChainSplice<T>(s: seq<Node<T>>, pos: int, t: seq<Node<T>>)
    requires 0 <= pos < |s| && |t| > 0 && Distinct(s) && Distinct(t) && Disjoint(s, t)
    requires forall k {:trigger s[k].next} :: 0 <= k < |s| - 1 && k != pos - 1 ==> s[k].next == s[k + 1]
    requires forall k {:trigger s[k].prev} :: 0 < k < |s| && k != pos ==> s[k].prev == s[k - 1]
    requires forall k {:trigger t[k].next} :: 0 <= k < |t| - 1 ==> t[k].next == t[k + 1]
    requires forall k {:trigger t[k].prev} :: 0 < k < |t| ==> t[k].prev == t[k - 1]
    requires pos > 0 ==> s[pos - 1].next == t[0]
    requires t[0].prev == NodeAt(s, pos - 1) && t[|t| - 1].next == s[pos] && s[pos].prev == t[|t| - 1]
    requires pos > 0 ==> s[0].prev == null
    requires s[|s| - 1].next == null
    ensures Chain(s[..pos] + t + s[pos..])
  {
    var u, n := s[..pos] + t + s[pos..], |t|;
    forall k | 0 <= k < |u| - 1
      ensures u[k].next == u[k + 1]
    {
      if pos <= k < pos + n {
        assert u[k] == t[k - pos];
      } else if k >= pos + n {
        assert u[k] == s[k - n] && u[k + 1] == s[k - n + 1];
      }
    }
    forall k | 0 < k < |u|
      ensures u[k].prev == u[k - 1]
    {
      if pos <= k < pos + n {
        assert u[k] == t[k - pos];
      } else if k > pos + n {
        assert u[k] == s[k - n] && u[k - 1] == s[k - n - 1];
      }
    }
    forall a, b | 0 <= a < b < |u|
      ensures Apart(u, a, b)
    {
      var ia, ib := if a < pos then a else a - n, if b < pos then b else b - n;
      if pos <= a < pos + n && pos <= b < pos + n {
        DistinctAt(t, a - pos, b - pos);
      } else if pos <= a < pos + n {
        assert u[a] == t[a - pos] && u[b] == s[ib];
        assert s[ib] in s;
      } else if pos <= b < pos + n {
        assert u[b] == t[b - pos] && u[a] == s[ia];
        assert s[ia] in s;
      } else {
        DistinctAt(s, ia, ib);
      }
    }
  }

  lemma DisjointAt<T>(s: seq<Node<T>>, t: seq<Node<T>>, i: int, x: Node<T>)
    requires Disjoint(s, t) && 0 <= i < |s| && x in t
    ensures s[i] != x
  {
    assert s[i] in s;
  }

  /** Links the chain `t` (first node `first`, last node `last`), with no
      node in common with the chain `s`, in front of `xobj`, the node of
      `s` at `pos`. */
  method SpliceBefore<T>(ghost s: seq<Node<T>>, pos: int, xobj: Node<T>, ghost t: seq<Node<T>>, first: Node<T>, last: Node<T>)
    requires Chain(s) && Chain(t) && 0 <= pos < |s| && xobj == s[pos] && |t| > 0 && Disjoint(s, t)
    requires first == t[0] && last == t[|t| - 1]
    modifies first`prev, last`next, xobj`prev, {xobj.prev}`next
    ensures Chain(s[..pos] + t + s[pos..])
  {
    var p := xobj.prev;
    ChainStep(s, pos);
    first.prev := p;
    last.next := xobj;
    xobj.prev := last;
    if p != null {
      p.next := first;
    }
    forall k | 0 <= k < |t| - 1
      ensures t[k].next == t[k + 1]
    {
      DistinctAt(t, k, |t| - 1);
      if pos > 0 {
        DisjointAt(s, t, pos - 1, t[k]);
      }
      assert old(t[k].next) == t[k + 1];
    }
    forall k | 0 < k < |t|
      ensures t[k].prev == t[k - 1]
    {
      DistinctAt(t, k, 0);
      DisjointAt(s, t, pos, t[k]);
      assert old(t[k].prev) == t[k - 1];
    }
    forall k | 0 <= k < |s| - 1 && k != pos - 1
      ensures s[k].next == s[k + 1]
    {
      if pos > 0 {
        DistinctAt(s, k, pos - 1);
      }
      DisjointAt(s, t, k, last);
      assert old(s[k].next) == s[k + 1];
    }
    forall k | 0 < k < |s| && k != pos
      ensures s[k].prev == s[k - 1]
    {
      DistinctAt(s, k, pos);
      DisjointAt(s, t, k, first);
      assert old(s[k].prev) == s[k - 1];
    }
    if pos > 0 {
      DistinctAt(s, 0, pos);
      DisjointAt(s, t, 0, first);
    }
    DisjointAt(s, t, |s| - 1, last);
    if pos > 0 {
      DistinctAt(s, |s| - 1, pos - 1);
    }
    ChainSplice(s, pos, t);
  }

  /** Writes the payload of the node at `pos`. */
  method SetObj<T>(ghost s: seq<Node<T>>, ghost v: seq<T>, x: Node<T>, ghost pos: int, obj: T)
    requires Distinct(s) && Stores(s, v) && 0 <= pos < |s| && x == s[pos]
    modifies x`obj
    ensures Stores(s, v[pos := obj])
  {
    x.obj := obj;
    forall k | 0 <= k < |s|
      ensures s[k].obj == v[pos := obj][k]
    {
      if k != pos {
        DistinctAt(s, k, pos);
      }
    }
  }

  /** Writes the mark of the node at `pos`. */
  method SetMark<T>(ghost s: seq<Node<T>>, ghost m: seq<bool>, x: Node<T>, ghost pos: int, b: bool)
    requires Distinct(s) && Flags(s, m) && 0 <= pos < |s| && x == s[pos]
    modifies x`mark
    ensures Flags(s, m[pos := b])
  {
    x.mark := b;
    forall k | 0 <= k < |s|
      ensures s[k].mark == m[pos := b][k]
    {
      if k != pos {
        DistinctAt(s, k, pos);
      }
    }
  }

  lemma StoresAppend<T>(s: seq<Node<T>>, v: seq<T>, n: Node<T>)
    requires Stores(s, v)
    ensures Stores(s + [n], v + [n.obj])
  {
  }

  lemma StoresConcat<T>(s: seq<Node<T>>, v: seq<T>, t: seq<Node<T>>, w: seq<T>)
    requires Stores(s, v) && Stores(t, w)
    ensures Stores(s + t, v + w)
  {
  }

  lemma FlagsConcat<T>(s: seq<Node<T>>, m: seq<bool>, t: seq<Node<T>>, n: seq<bool>)
    requires Flags(s, m) && Flags(t, n)
    ensures Flags(s + t, m + n)
  {
  }

  lemma StoresSplice<T>(s: seq<Node<T>>, v: seq<T>, pos: int, t: seq<Node<T>>, w: seq<T>)
    requires Stores(s, v) && Stores(t, w) && 0 <= pos <= |s|
    ensures Stores(s[..pos] + t + s[pos..], v[..pos] + w + v[pos..])
  {
    var u, x := s[..pos] + t + s[pos..], v[..pos] + w + v[pos..];
    forall k | 0 <= k < |u| ensures u[k].obj == x[k] {
      if pos <= k < pos + |t| {
        assert u[k] == t[k - pos] && x[k] == w[k - pos];
      } else if k >= pos + |t| {
        assert u[k] == s[k - |t|] && x[k] == v[k - |t|];
      }
    }
  }

  lemma FlagsSplice<T>(s: seq<Node<T>>, m: seq<bool>, pos: int, t: seq<Node<T>>, n: seq<bool>)
    requires Flags(s, m) && Flags(t, n) && 0 <= pos <= |s|
    ensures Flags(s[..pos] + t + s[pos..], m[..pos] + n + m[pos..])
  {
    var u, x := s[..pos] + t + s[pos..], m[..pos] + n + m[pos..];
    forall k | 0 <= k < |u| ensures u[k].mark == x[k] {
      if pos <= k < pos + |t| {
        assert u[k] == t[k - pos] && x[k] == n[k - pos];
      } else if k >= pos + |t| {
        assert u[k] == s[k - |t|] && x[k] == m[k - |t|];
      }
    }
  }

  lemma FlagsAppend<T>(s: seq<Node<T>>, m: seq<bool>, n: Node<T>)
    requires Flags(s, m)
    ensures Flags(s + [n], m + [n.mark])
  {
  }

  lemma StoresInsert<T>(s: seq<Node<T>>, v: seq<T>, pos: int, n: Node<T>)
    requires Stores(s, v) && 0 <= pos <= |s|
    ensures Stores(s[..pos] + [n] + s[pos..], v[..pos] + [n.obj] + v[pos..])
  {
    var t, w := s[..pos] + [n] + s[pos..], v[..pos] + [n.obj] + v[pos..];
    forall k | 0 <= k < |t| ensures t[k].obj == w[k] {
      if k > pos {
        assert t[k] == s[k - 1] && w[k] == v[k - 1];
      }
    }
  }

  lemma StoresRemove<T>(s: seq<Node<T>>, v: seq<T>, pos: int)
    requires Stores(s, v) && 0 <= pos < |s|
    ensures Stores(s[..pos] + s[pos + 1..], v[..pos] + v[pos + 1..])
  {
    var t, w := s[..pos] + s[pos + 1..], v[..pos] + v[pos + 1..];
    forall k | 0 <= k < |t| ensures t[k].obj == w[k] {
      if k >= pos {
        assert t[k] == s[k + 1] && w[k] == v[k + 1];
      }
    }
  }

  lemma FlagsInsert<T>(s: seq<Node<T>>, m: seq<bool>, pos: int, n: Node<T>)
    requires Flags(s, m) && 0 <= pos <= |s|
    ensures Flags(s[..pos] + [n] + s[pos..], m[..pos] + [n.mark] + m[pos..])
  {
    var t, w := s[..pos] + [n] + s[pos..], m[..pos] + [n.mark] + m[pos..];
    forall k | 0 <= k < |t| ensures t[k].mark == w[k] {
      if k > pos {
        assert t[k] == s[k - 1] && w[k] == m[k - 1];
      }
    }
  }

  lemma FlagsRemove<T>(s: seq<Node<T>>, m: seq<bool>, pos: int)
    requires Flags(s, m) && 0 <= pos < |s|
    ensures Flags(s[..pos] + s[pos + 1..], m[..pos] + m[pos + 1..])
  {
    var t, w := s[..pos] + s[pos + 1..], m[..pos] + m[pos + 1..];
    forall k | 0 <= k < |t| ensures t[k].mark == w[k] {
      if k >= pos {
        assert t[k] == s[k + 1] && w[k] == m[k + 1];
      }
    }
  }
}
