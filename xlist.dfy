/** The container XList (xlist.go, corefunc.go, internal.go, marking.go,
    bulk.go, range.go): a doubly-linked list of `Node`s with `home`, `end`
    and `size`. The nodes of the list, in order, are the ghost sequence
    `nodes` and their payloads the ghost sequence `elems`; `Valid()` is the
    well-formedness every operation keeps. */
module XLists {
  import opened Nodes
  import opened Ordering
  import opened ListSpec
  import opened PdqPrimitives
  import opened PdqDriver

  datatype Option<T> = None | Some(value: T)

  /** The two error values the container returns (xlist.go). */
  datatype Error = ErrInvalidIndex | ErrElementNotFound

  /** `home`..`end` is the chain `s`, holding `v` and carrying `m`, and
      `size` counts it; the list is empty exactly when `home` and `end` are
      nil. */
  ghost predicate ListShape<T>(home: Node?<T>, end: Node?<T>, size: int, s: seq<Node<T>>, v: seq<T>, m: seq<bool>)
    reads s`next, s`prev, s`obj, s`mark
  {
    Chain(s) && Stores(s, v) && Flags(s, m) && size == |s| &&
    (|s| == 0 ==> home == null && end == null) &&
    (|s| > 0 ==> home == s[0] && end == s[|s| - 1])
  }

  /** Links the unlinked node `lobj` after the last node of a list with the
      given fields; `h` and `e` are the new first and last nodes. */
  method AppendShape<T>(home: Node?<T>, end: Node?<T>, size: int, ghost s: seq<Node<T>>, ghost v: seq<T>, ghost m: seq<bool>,
                        lobj: Node<T>) returns (h: Node?<T>, e: Node?<T>)
    requires ListShape(home, end, size, s, v, m) && lobj !in s && lobj.next == null && lobj.prev == null && !lobj.mark
    modifies {end}`next, lobj`prev
    ensures ListShape(h, e, size + 1, s + [lobj], v + [lobj.obj], m + [false])
    ensures size > 0 ==> h == home
  {
    StoresAppend(s, v, lobj);
    FlagsAppend(s, m, lobj);
    if home == null && end == null {
      return lobj, lobj;
    }
    ghost var t := LinkLast(s, end, lobj);
    return home, lobj;
  }

  /** Links `lobj`, a node outside a list with the given fields, in front of
      `xobj`, its node at `pos`; `h` is the new first node. */
  method InsertShape<T>(home: Node?<T>, end: Node?<T>, size: int, ghost s: seq<Node<T>>, ghost v: seq<T>, ghost m: seq<bool>,
                        pos: int, xobj: Node<T>, lobj: Node<T>) returns (h: Node?<T>)
    requires ListShape(home, end, size, s, v, m) && 0 <= pos < size && xobj == s[pos] && lobj !in s && !lobj.mark
    modifies lobj`next, lobj`prev, xobj`prev, {xobj.prev}`next
    ensures ListShape(h, end, size + 1, Inserted(s, pos, [lobj]), Inserted(v, pos, [lobj.obj]), Inserted(m, pos, [false]))
  {
    ChainStep(s, pos);
    h := if xobj.prev == null then lobj else home;
    StoresInsert(s, v, pos, lobj);
    FlagsInsert(s, m, pos, lobj);
    ghost var t := s[..pos] + [lobj] + s[pos..];
    assert t[0] == h && t[|t| - 1] == end;
    LinkBefore(s, pos, xobj, lobj);
  }

  /** Unlinks the node at `pos` of a list with the given fields; `h` and
      `e` are the new first and last nodes. */
  method RemoveShape<T>(home: Node?<T>, end: Node?<T>, size: int, ghost s: seq<Node<T>>, ghost v: seq<T>, ghost m: seq<bool>,
                        pos: int, xobj: Node<T>) returns (h: Node?<T>, e: Node?<T>)
    requires ListShape(home, end, size, s, v, m) && 0 <= pos < size && xobj == s[pos]
    modifies {xobj.prev}`next, {xobj.next}`prev
    ensures ListShape(h, e, size - 1, Removed(s, pos), Removed(v, pos), Removed(m, pos))
  {
    h := if home == xobj then xobj.next else home;
    e := if end == xobj then xobj.prev else end;
    StoresRemove(s, v, pos);
    FlagsRemove(s, m, pos);
    Unlink(s, pos, xobj);
  }

  /** Links the chain of a second list after the last node of a first,
      non-empty one with no node in common; the result has the first list's
      `home` and the second's `end`. */
  method JoinShape<T>(h1: Node?<T>, e1: Node?<T>, n1: int, ghost s1: seq<Node<T>>, ghost v1: seq<T>, ghost m1: seq<bool>,
                      h2: Node?<T>, e2: Node?<T>, n2: int, ghost s2: seq<Node<T>>, ghost v2: seq<T>, ghost m2: seq<bool>)
    requires ListShape(h1, e1, n1, s1, v1, m1) && ListShape(h2, e2, n2, s2, v2, m2)
    requires n1 > 0 && n2 > 0 && Disjoint(s1, s2)
    modifies {e1}`next, {h2}`prev
    ensures ListShape(h1, e2, n1 + n2, s1 + s2, v1 + v2, m1 + m2)
  {
    StoresConcat(s1, v1, s2, v2);
    FlagsConcat(s1, m1, s2, m2);
    LinkRun(s1, s2, e1, h2);
  }

  /** Links the chain of a second, non-empty list with no node in common
      in front of `xobj`, the node at `pos` of the first; `h` is the new
      first node. */
  method SpliceShape<T>(home: Node?<T>, end: Node?<T>, size: int, ghost s: seq<Node<T>>, ghost v: seq<T>, ghost m: seq<bool>,
                        pos: int, xobj: Node<T>,
                        h2: Node?<T>, e2: Node?<T>, n2: int, ghost s2: seq<Node<T>>, ghost v2: seq<T>, ghost m2: seq<bool>)
    returns (h: Node?<T>)
    requires ListShape(home, end, size, s, v, m) && ListShape(h2, e2, n2, s2, v2, m2)
    requires 0 <= pos < size && xobj == s[pos] && n2 > 0 && Disjoint(s, s2)
    modifies {h2}`prev, {e2}`next, xobj`prev, {xobj.prev}`next
    ensures ListShape(h, end, size + n2, Inserted(s, pos, s2), Inserted(v, pos, v2), Inserted(m, pos, m2))
  {
    ChainStep(s, pos);
    h := if xobj.prev == null then h2 else home;
    StoresSplice(s, v, pos, s2, v2);
    FlagsSplice(s, m, pos, s2, m2);
    ghost var t := s[..pos] + s2 + s[pos..];
    assert t[0] == h && t[|t| - 1] == end;
    SpliceBefore(s, pos, xobj, s2, h2, e2);
  }

  /** The loop of CopyRange over the chain `s` holding `v`: a new list is
      made on reaching `from`, and from there on each payload up to `to` is
      appended to it; `i` is where the walk stopped, at `to + 1` or at the
      end of the chain, whichever comes first. */
  method CopyLoop<T(==, !new)>(ghost s: seq<Node<T>>, ghost v: seq<T>, first: Node?<T>, from: int, to: int)
    returns (newList: XList?<T>, i: int)
    requires Chain(s) && Stores(s, v) && first == NodeAt(s, 0)
    ensures i == (if to < 0 then 0 else if to + 1 < |s| then to + 1 else |s|)
    ensures newList != null <==> 0 <= from < i
    ensures newList != null ==> fresh(newList) && newList.Valid() && newList.elems == v[from..i]
    ensures newList != null ==> newList.marks == Unset(i - from)
    ensures newList != null ==> forall k :: 0 <= k < |newList.nodes| ==> fresh(newList.nodes[k])
  {
    var xobj := first;
    i := 0;
    newList := null;
    while i <= to && xobj != null
      invariant 0 <= i <= |s| && xobj == NodeAt(s, i)
      invariant i == 0 || i <= to + 1
      invariant newList != null <==> 0 <= from < i
      invariant newList != null ==> fresh(newList) && newList.Valid() && newList.elems == v[from..i]
      invariant newList != null ==> newList.marks == Unset(i - from)
      invariant newList != null ==> forall k :: 0 <= k < |newList.nodes| ==> fresh(newList.nodes[k])
      decreases |s| - i
    {
      if i == from {
        newList := new XList.Empty();
      }
      if newList != null {
        CopyStep(newList, v, from, i, xobj.obj);
      }
      xobj := xobj.next;
      i := i + 1;
    }
  }

  /** One round of CopyLoop once the copy has begun: `x`, the payload at
      `i`, is appended to the copy of `v[from..i]`. */
  method CopyStep<T(==, !new)>(newList: XList<T>, ghost v: seq<T>, from: int, i: int, x: T)
    requires newList.Valid() && 0 <= from <= i < |v| && x == v[i]
    requires newList.elems == v[from..i] && newList.marks == Unset(i - from)
    modifies newList, newList.nodes`next, newList.nodes`prev
    ensures newList.Valid() && newList.elems == v[from..i + 1] && newList.marks == Unset(i + 1 - from)
    ensures forall k :: 0 <= k < |newList.nodes| ==> newList.nodes[k] in old(newList.nodes) || fresh(newList.nodes[k])
  {
    SliceOneMore(v, from, i);
    UnsetConcat(i - from, 1);
    newList.Append([x]);
  }

  /** The loop of Find over the chain `s` holding `v`: a new list gets, in
      order, each payload that `accept` takes with its index. */
  method FindLoop<T(==, !new)>(ghost s: seq<Node<T>>, ghost v: seq<T>, first: Node?<T>, accept: (int, T) -> bool)
    returns (newList: XList<T>)
    requires Chain(s) && Stores(s, v) && first == NodeAt(s, 0)
    ensures fresh(newList) && newList.Valid() && newList.elems == Found(v, accept)
  {
    newList := new XList.Empty();
    var lobj := first;
    var i := 0;
    while lobj != null
      invariant 0 <= i <= |s| && lobj == NodeAt(s, i)
      invariant fresh(newList) && newList.Valid() && newList.elems == Found(v[..i], accept)
      invariant forall k :: 0 <= k < |newList.nodes| ==> fresh(newList.nodes[k])
      decreases |s| - i
    {
      if accept(i, lobj.obj) {
        FoundRound(newList, v, i, lobj.obj, accept);
      } else {
        FoundStep(v, i, accept);
      }
      lobj := lobj.next;
      i := i + 1;
    }
    assert v[..i] == v;
  }

  /** One round of FindLoop in which `accept` takes `v[i]`: it is appended
      to the payloads found so far. */
  method FoundRound<T(==, !new)>(newList: XList<T>, ghost v: seq<T>, i: int, x: T, accept: (int, T) -> bool)
    requires newList.Valid() && 0 <= i < |v| && x == v[i] && accept(i, x) && newList.elems == Found(v[..i], accept)
    modifies newList, newList.nodes`next, newList.nodes`prev
    ensures newList.Valid() && newList.elems == Found(v[..i + 1], accept)
    ensures forall k :: 0 <= k < |newList.nodes| ==> newList.nodes[k] in old(newList.nodes) || fresh(newList.nodes[k])
  {
    FoundStep(v, i, accept);
    newList.Append([x]);
  }

  /** The state of Find's loop: the cursor, the index and what was found. */
  datatype FindState<T> = FindState(cursor: Node?<T>, i: int, found: seq<T>)

  /** One round of Find's loop as written, once the loop condition holds:
      the payload under the cursor is tested and the index moves on, but
      the cursor stays where it is. */
  ghost function FindRoundAsWritten<T>(st: FindState<T>, accept: (int, T) -> bool): FindState<T>
    reads st.cursor
  {
    if st.cursor == null then st
    else FindState(st.cursor, st.i + 1, if accept(st.i, st.cursor.obj) then st.found + [st.cursor.obj] else st.found)
  }

  /** `k` rounds of Find's loop as written. */
  ghost function FindRoundsAsWritten<T>(st: FindState<T>, accept: (int, T) -> bool, k: nat): FindState<T>
    reads *
  {
    if k == 0 then st else FindRoundAsWritten(FindRoundsAsWritten(st, accept, k - 1), accept)
  }

  /** Find as written never leaves its loop on a non-empty list: after any
      number of rounds the cursor is still the first node, so the loop
      condition still holds. */
  lemma {:induction false} FindNeverEnds<T>(st: FindState<T>, accept: (int, T) -> bool, k: nat)
    requires st.cursor != null
    ensures FindRoundsAsWritten(st, accept, k).cursor == st.cursor
    ensures FindRoundsAsWritten(st, accept, k).i == st.i + k
  {
    if k > 0 {
      FindNeverEnds(st, accept, k - 1);
    }
  }

  /** The loop of MarkAll and UnmarkAll: every node from `first` on gets
      the mark `b`. */
  method MarkChain<T>(ghost s: seq<Node<T>>, first: Node?<T>, b: bool)
    requires Chain(s) && first == NodeAt(s, 0)
    modifies s`mark
    ensures Flags(s, seq(|s|, _ => b))
  {
    var xobj := first;
    ghost var k := 0;
    while xobj != null
      invariant 0 <= k <= |s| && xobj == NodeAt(s, k) && Chain(s)
      invariant forall j :: 0 <= j < k ==> s[j].mark == b
      decreases |s| - k
    {
      forall j | 0 <= j < k
        ensures s[j] != xobj
      {
        DistinctAt(s, j, k);
      }
      xobj.mark := b;
      xobj := xobj.next;
      k := k + 1;
    }
  }

  /** The loop of Modify: from `first` forward, each payload is replaced by
      `change` of its index and itself; `calls` are the arguments `change`
      receives, in order. */
  method ModifyChain<T>(ghost s: seq<Node<T>>, ghost v: seq<T>, first: Node?<T>, change: (int, T) -> T)
    returns (ghost calls: seq<(int, T)>)
    requires Chain(s) && Stores(s, v) && first == NodeAt(s, 0)
    modifies s`obj
    ensures Stores(s, Modified(v, change)) && calls == Indexed(v)
  {
    var lobj := first;
    var i := 0;
    calls := [];
    while lobj != null
      invariant 0 <= i <= |s| && lobj == NodeAt(s, i) && Chain(s)
      invariant forall j :: 0 <= j < i ==> s[j].obj == change(j, v[j])
      invariant forall j :: i <= j < |s| ==> s[j].obj == v[j]
      invariant calls == Indexed(v)[..i]
      decreases |s| - i
    {
      forall j | 0 <= j < |s| && j != i
        ensures s[j] != lobj
      {
        DistinctAt(s, j, i);
      }
      calls := calls + [(i, lobj.obj)];
      lobj.obj := change(i, lobj.obj);
      TakeOneMore(Indexed(v), i);
      lobj := lobj.next;
      i := i + 1;
    }
  }

  /** The loop of ModifyRev: the same from the last node backward, with
      indices counting down from `n - 1`. */
  method ModifyChainRev<T>(ghost s: seq<Node<T>>, ghost v: seq<T>, last: Node?<T>, n: int, change: (int, T) -> T)
    returns (ghost calls: seq<(int, T)>)
    requires Chain(s) && Stores(s, v) && last == NodeAt(s, |s| - 1) && n == |s|
    modifies s`obj
    ensures Stores(s, Modified(v, change)) && calls == Rev(Indexed(v))
  {
    var lobj := last;
    var i := n - 1;
    calls := [];
    while lobj != null
      invariant -1 <= i < |s| && lobj == NodeAt(s, i) && Chain(s)
      invariant forall j :: i < j < |s| ==> s[j].obj == change(j, v[j])
      invariant forall j :: 0 <= j <= i ==> s[j].obj == v[j]
      invariant calls == Rev(Indexed(v))[..|s| - 1 - i]
      decreases i
    {
      forall j | 0 <= j < |s| && j != i
        ensures s[j] != lobj
      {
        DistinctAt(s, j, i);
      }
      calls := calls + [(i, lobj.obj)];
      lobj.obj := change(i, lobj.obj);
      TakeOneMore(Rev(Indexed(v)), |s| - 1 - i);
      lobj := lobj.prev;
      i := i - 1;
    }
  }

  /** The loop of ForwardPtr over the chain `s` holding `v`. */
  method WalkForward<T>(ghost s: seq<Node<T>>, ghost v: seq<T>, first: Node?<T>, visit: ((int, T)) -> bool)
    returns (out: seq<(int, T)>)
    requires Chain(s) && Stores(s, v) && first == NodeAt(s, 0)
    ensures out == Delivered(Indexed(v), visit)
  {
    ghost var items := Indexed(v);
    var tmp := first;
    var index := 0;
    out := [];
    while tmp != null
      invariant 0 <= index <= |s| && tmp == NodeAt(s, index)
      invariant out == items[..index]
      invariant Delivered(items, visit) == out + Delivered(items[index..], visit)
      decreases |s| - index
    {
      DeliveredAdvance(items, index, out, visit);
      var item := (index, tmp.obj);
      out := out + [item];
      if !visit(item) {
        return;
      }
      tmp := tmp.next;
      index := index + 1;
    }
    DeliveredEnd(items, out, visit);
  }

  /** The loop of BackwardPtr: from `last` back, indices from `n - 1` down. */
  method WalkBackward<T>(ghost s: seq<Node<T>>, ghost v: seq<T>, last: Node?<T>, n: int, visit: ((int, T)) -> bool)
    returns (out: seq<(int, T)>)
    requires Chain(s) && Stores(s, v) && last == NodeAt(s, |s| - 1) && n == |s|
    ensures out == Delivered(Rev(Indexed(v)), visit)
  {
    ghost var items := Rev(Indexed(v));
    var tmp := last;
    var index := n - 1;
    ghost var j := 0;
    out := [];
    while tmp != null
      invariant 0 <= j <= |s| && index == |s| - 1 - j && tmp == NodeAt(s, index)
      invariant out == items[..j]
      invariant Delivered(items, visit) == out + Delivered(items[j..], visit)
      decreases |s| - j
    {
      var item := (index, tmp.obj);
      assert item == items[j];
      DeliveredAdvance(items, j, out, visit);
      out := out + [item];
      if !visit(item) {
        return;
      }
      tmp := tmp.prev;
      index := index - 1;
      j := j + 1;
    }
    DeliveredEnd(items, out, visit);
  }

  /** The loop of Values. */
  method WalkValues<T>(ghost s: seq<Node<T>>, ghost v: seq<T>, first: Node?<T>, visit: T -> bool) returns (out: seq<T>)
    requires Chain(s) && Stores(s, v) && first == NodeAt(s, 0)
    ensures out == Delivered(v, visit)
  {
    var tmp := first;
    ghost var k := 0;
    out := [];
    while tmp != null
      invariant 0 <= k <= |s| && tmp == NodeAt(s, k)
      invariant out == v[..k]
      invariant Delivered(v, visit) == out + Delivered(v[k..], visit)
      decreases |s| - k
    {
      DeliveredAdvance(v, k, out, visit);
      out := out + [tmp.obj];
      if !visit(tmp.obj) {
        return;
      }
      tmp := tmp.next;
      k := k + 1;
    }
    DeliveredEnd(v, out, visit);
  }

  /** The loop of ValuesRev. */
  method WalkValuesRev<T>(ghost s: seq<Node<T>>, ghost v: seq<T>, last: Node?<T>, visit: T -> bool) returns (out: seq<T>)
    requires Chain(s) && Stores(s, v) && last == NodeAt(s, |s| - 1)
    ensures out == Delivered(Rev(v), visit)
  {
    ghost var items := Rev(v);
    var tmp := last;
    ghost var j := 0;
    out := [];
    while tmp != null
      invariant 0 <= j <= |s| && tmp == NodeAt(s, |s| - 1 - j)
      invariant out == items[..j]
      invariant Delivered(items, visit) == out + Delivered(items[j..], visit)
      decreases |s| - j
    {
      assert tmp.obj == items[j];
      DeliveredAdvance(items, j, out, visit);
      out := out + [tmp.obj];
      if !visit(tmp.obj) {
        return;
      }
      tmp := tmp.prev;
      j := j + 1;
    }
    DeliveredEnd(items, out, visit);
  }

  class XList<T(==, !new)> {
    var home: Node?<T>
    var end: Node?<T>
    var size: int
    ghost var nodes: seq<Node<T>>
    ghost var elems: seq<T>
    ghost var marks: seq<bool>

    /** The fields have the shape of a list. */
    ghost predicate Valid()
      reads this, nodes`next, nodes`prev, nodes`obj, nodes`mark
    {
      ListShape(home, end, size, nodes, elems, marks)
    }

    /** What `goToPosition` relies on: following `next` from `home` visits
        `nodes` in order and stops after the last one, and a positive `size`
        comes with at least one node. `size` itself may disagree with the
        chain's length. */
    ghost predicate Reachable()
      reads this, nodes`next
    {
      home == NodeAt(nodes, 0) &&
      (forall k {:trigger nodes[k].next} :: 0 <= k < |nodes| ==> nodes[k].next == NodeAt(nodes, k + 1)) &&
      (size > 0 ==> |nodes| > 0)
    }

    lemma ValidReachable()
      requires Valid()
      ensures Reachable()
    {
    }

    /** What well-formedness says about the fields: `size` counts the nodes,
        the list is empty exactly when both ends are nil, the ends have no
        outer neighbour, and a one-element list has one unlinked node. */
    lemma ValidMeans()
      requires Valid()
      ensures size == |nodes| == |elems| == |marks|
      ensures (home == null && end == null) <==> elems == []
      ensures home != null ==> home.prev == null && end != null && end.next == null
      ensures size == 1 ==> home == end && home != null && home.next == null && home.prev == null
    {
    }

    /** The links of a well-formed list agree in both directions. */
    lemma LinksAgree(i: int, j: int)
      requires Valid() && 0 <= i < |nodes| && 0 <= j < |nodes|
      ensures nodes[i].next == nodes[j] <==> nodes[j].prev == nodes[i]
    {
      NextIffPrev(nodes, i, j);
    }

    /** The empty list `XList[T]{}`. */
    constructor Empty()
      ensures Valid() && elems == [] && nodes == []
    {
      home := null;
      end := null;
      size := 0;
      nodes := [];
      elems := [];
      marks := [];
    }

    /** New(objects...): an empty list filled through Set. */
    constructor (objects: seq<T>)
      ensures Valid() && elems == objects && marks == Unset(|objects|)
      ensures forall k :: 0 <= k < |nodes| ==> fresh(nodes[k])
    {
      home := null;
      end := null;
      size := 0;
      nodes := [];
      elems := [];
      marks := [];
      new;
      Set(objects);
    }

    /** Points the list at a chain of the right shape. */
    method SetFields(h: Node?<T>, e: Node?<T>, n: int, ghost s: seq<Node<T>>, ghost v: seq<T>, ghost m: seq<bool>)
      requires ListShape(h, e, n, s, v, m)
      modifies this
      ensures Valid()
      ensures home == h && end == e && size == n && nodes == s && elems == v && marks == m
    {
      home, end, size, nodes, elems, marks := h, e, n, s, v, m;
    }

    /** goToPosition: the node `pos` hops after `home`, or nil when `pos`
        is outside `[0, size)` or the chain ends first. */
    method GoToPosition(pos: int) returns (r: Node?<T>)
      requires Reachable()
      ensures r == (if 0 <= pos < size && pos < |nodes| then nodes[pos] else null)
    {
      if pos < 0 || pos > size - 1 {
        return null;
      }
      var xobj := home;
      var i := 0;
      while i != pos && xobj.next != null
        invariant 0 <= i <= pos && i < |nodes| && xobj == nodes[i]
        decreases pos - i
      {
        xobj := xobj.next;
        i := i + 1;
      }
      if i != pos {
        return null;
      }
      return xobj;
    }

    /** at / At: the payload at `index`, or nothing outside the list. */
    method At(index: int) returns (r: Option<T>)
      requires Valid()
      ensures r == (if 0 <= index < |elems| then Some(elems[index]) else None)
    {
      ValidReachable();
      var lobj := GoToPosition(index);
      if lobj == null {
        return None;
      }
      return Some(lobj.obj);
    }

    /** LastObject: At(size - 1). */
    method LastObject() returns (r: Option<T>)
      requires Valid()
      ensures r == (if |elems| > 0 then Some(elems[|elems| - 1]) else None)
    {
      r := At(size - 1);
    }

    /** isEmpty / IsEmpty: both ends are nil. */
    method IsEmpty() returns (r: bool)
      requires Valid()
      ensures r <==> elems == []
    {
      return home == null && end == null;
    }

    method Size() returns (r: int)
      requires Valid()
      ensures r == |elems|
    {
      return size;
    }

    /** Clear: forgets the chain; the old nodes are left as they are. */
    method Clear()
      modifies this
      ensures Valid() && elems == [] && nodes == [] && marks == []
    {
      home := null;
      end := null;
      size := 0;
      nodes := [];
      elems := [];
      marks := [];
    }

    /** Set: no change for no objects, otherwise the list holds exactly
        `objects`. */
    method Set(objects: seq<T>)
      requires Valid()
      modifies this, nodes`next, nodes`prev
      ensures Valid()
      ensures objects == [] ==> elems == old(elems) && nodes == old(nodes) && marks == old(marks)
      ensures objects != [] ==> elems == objects && marks == Unset(|objects|)
      ensures objects != [] ==> forall k :: 0 <= k < |nodes| ==> fresh(nodes[k])
    {
      if |objects| == 0 {
        return;
      }
      Clear();
      Append(objects);
    }

    /** One round of Append's loop: the new node `lobj` linked after `end`. */
    method AppendNode(lobj: Node<T>)
      requires Valid() && lobj !in nodes && lobj.next == null && lobj.prev == null && !lobj.mark
      modifies this, nodes`next, lobj`prev
      ensures Valid() && nodes == old(nodes) + [lobj]
      ensures elems == old(elems) + [lobj.obj] && marks == old(marks) + [false]
      ensures old(size) > 0 ==> home == old(home)
    {
      var h, e := AppendShape(home, end, size, nodes, elems, marks, lobj);
      SetFields(h, e, size + 1, nodes + [lobj], elems + [lobj.obj], marks + [false]);
    }

    /** Append: the objects are linked after `end` in argument order, each
        in a fresh unmarked node; `home` of a non-empty list stays. */
    method Append(objects: seq<T>)
      requires Valid()
      modifies this, nodes`next, nodes`prev
      ensures Valid() && elems == old(elems) + objects
      ensures marks == old(marks) + Unset(|objects|)
      ensures |nodes| == |old(nodes)| + |objects| && nodes[..|old(nodes)|] == old(nodes)
      ensures forall k :: |old(nodes)| <= k < |nodes| ==> fresh(nodes[k])
      ensures old(size) > 0 ==> home == old(home)
    {
      ghost var s0, v0, m0, h0 := nodes, elems, marks, home;
      var i := 0;
      while i < |objects|
        invariant 0 <= i <= |objects| && Valid()
        invariant elems == v0 + objects[..i]
        invariant marks == m0 + Unset(i)
        invariant |nodes| == |s0| + i && nodes[..|s0|] == s0
        invariant forall k :: |s0| <= k < |nodes| ==> fresh(nodes[k])
        invariant |s0| > 0 ==> home == h0
      {
        var lobj := new Node(objects[i]);
        AppendRound(v0, objects, i, m0, s0, nodes, lobj);
        AppendNode(lobj);
        i := i + 1;
      }
      assert objects[..i] == objects;
    }

    /** Contains: false on an empty list; otherwise whether every one of
        `objects` occurs among the payloads. */
    method Contains(objects: seq<T>) returns (r: bool)
      requires Valid()
      ensures r <==> |elems| > 0 && forall o :: o in objects ==> o in elems
    {
      var isObj: set<T> := {};
      var lobj := home;
      ghost var k := 0;
      while lobj != null
        invariant 0 <= k <= |nodes| && lobj == NodeAt(nodes, k)
        invariant forall x :: x in isObj <==> x in elems[..k]
        decreases |nodes| - k
      {
        isObj := isObj + {lobj.obj};
        assert elems[..k + 1] == elems[..k] + [elems[k]];
        lobj := lobj.next;
        k := k + 1;
      }
      assert elems[..k] == elems;
      if |elems| > 0 {
        assert elems[0] in isObj;
      }
      if |isObj| == 0 {
        return false;
      }
      for i := 0 to |objects|
        invariant forall m :: 0 <= m < i ==> objects[m] in isObj
      {
        if objects[i] !in isObj {
          return false;
        }
      }
      return true;
    }

    /** One round of Insert's loop: the new node `lobj` linked before the
        node at `pos`, becoming `home` when that node was the first. */
    method InsertOne(pos: int, lobj: Node<T>)
      requires Valid() && 0 <= pos < size && lobj !in nodes && !lobj.mark
      modifies this, nodes`next, nodes`prev, lobj`next, lobj`prev
      ensures Valid()
      ensures elems == Inserted(old(elems), pos, [lobj.obj])
      ensures marks == Inserted(old(marks), pos, [false])
      ensures nodes == Inserted(old(nodes), pos, [lobj])
    {
      ValidReachable();
      var xobj := GoToPosition(pos);
      var h := InsertShape(home, end, size, nodes, elems, marks, pos, xobj, lobj);
      SetFields(h, end, size + 1, Inserted(nodes, pos, [lobj]), Inserted(elems, pos, [lobj.obj]), Inserted(marks, pos, [false]));
    }

    /** One round of Insert's loop, with what the earlier rounds did: the
        objects `done` are already in place from `pos` on, in fresh
        unmarked nodes. */
    method InsertStep(p: int, obj: T, ghost pos: int, ghost v: seq<T>, ghost m: seq<bool>, ghost done: seq<T>)
      requires Valid() && 0 <= pos && p == pos + |done| && p < size
      requires pos <= |v| && elems == Inserted(v, pos, done)
      requires pos <= |m| && marks == Inserted(m, pos, Unset(|done|))
      modifies this, nodes`next, nodes`prev
      ensures Valid() && p + 1 < size
      ensures forall k :: 0 <= k < |nodes| ==> nodes[k] in old(nodes) || fresh(nodes[k])
      ensures elems == Inserted(v, pos, done + [obj])
      ensures marks == Inserted(m, pos, Unset(|done| + 1))
    {
      var lobj := new Node(obj);
      InsertOne(p, lobj);
      InsertedTwice(v, pos, done, obj);
      UnsetInsertedTwice(m, pos, |done|);
    }

    /** Insert's loop, for a position inside the list. */
    method InsertInside(pos: int, objects: seq<T>)
      requires Valid() && 0 <= pos < size
      modifies this, nodes`next, nodes`prev
      ensures Valid()
      ensures elems == Inserted(old(elems), pos, objects)
      ensures marks == Inserted(old(marks), pos, Unset(|objects|))
    {
      ghost var v, m := elems, marks;
      var p := pos;
      for i := 0 to |objects|
        invariant Valid() && p == pos + i && p < size
        invariant forall k :: 0 <= k < |nodes| ==> nodes[k] in old(nodes) || fresh(nodes[k])
        invariant elems == Inserted(v, pos, objects[..i])
        invariant marks == Inserted(m, pos, Unset(i))
      {
        InsertStep(p, objects[i], pos, v, m, objects[..i]);
        TakeOneMore(objects, i);
        p := p + 1;
      }
      assert objects[..|objects|] == objects;
    }

    /** Insert: an index outside `[0, size]` is refused with no change;
        `size` appends; otherwise the objects, in order, end up before the
        element that was at `pos`. The new nodes are unmarked. */
    method Insert(pos: int, objects: seq<T>) returns (err: Option<Error>)
      requires Valid()
      modifies this, nodes`next, nodes`prev
      ensures Valid()
      ensures !(0 <= pos <= old(size)) ==> err == Some(ErrInvalidIndex) && elems == old(elems) && nodes == old(nodes)
      ensures 0 <= pos <= old(size) ==> err == None && elems == Inserted(old(elems), pos, objects)
      ensures 0 <= pos <= old(size) ==> marks == Inserted(old(marks), pos, Unset(|objects|))
    {
      if pos < 0 || pos > size {
        return Some(ErrInvalidIndex);
      }
      if size == pos {
        InsertAtEndAppends(elems, objects);
        InsertAtEndAppends(marks, Unset(|objects|));
        Append(objects);
        return None;
      }
      InsertInside(pos, objects);
      return None;
    }

    /** Replace: on an empty list or a position with no node, refused with
        `ErrElementNotFound`; otherwise only the payload at `pos` changes. */
    method Replace(pos: int, obj: T) returns (err: Option<Error>)
      requires Valid()
      modifies this, nodes`obj
      ensures Valid() && nodes == old(nodes) && marks == old(marks)
      ensures 0 <= pos < old(size) ==> err == None && elems == old(elems)[pos := obj]
      ensures !(0 <= pos < old(size)) ==> err == Some(ErrElementNotFound) && elems == old(elems)
    {
      if home == null && end == null {
        return Some(ErrElementNotFound);
      }
      ValidReachable();
      var xobj := GoToPosition(pos);
      if xobj == null {
        return Some(ErrElementNotFound);
      }
      ghost var s, v := nodes, elems;
      elems := v[pos := obj];
      SetObj(s, v, xobj, pos, obj);
      return None;
    }

    /** ReplaceLast: `ErrElementNotFound` on an empty list; otherwise only
        the last payload changes. */
    method ReplaceLast(obj: T) returns (err: Option<Error>)
      requires Valid()
      modifies this, nodes`obj
      ensures Valid() && nodes == old(nodes) && marks == old(marks)
      ensures old(elems) != [] ==> err == None && elems == old(elems)[|old(elems)| - 1 := obj]
      ensures old(elems) == [] ==> err == Some(ErrElementNotFound) && elems == old(elems)
    {
      if home == null && end == null {
        return Some(ErrElementNotFound);
      }
      ValidReachable();
      var xobj := GoToPosition(size - 1);
      if xobj == null {
        return Some(ErrElementNotFound);
      }
      ghost var s, v := nodes, elems;
      elems := v[size - 1 := obj];
      SetObj(s, v, xobj, size - 1, obj);
      return None;
    }

    /** The body of DeleteAt for a position inside the list. */
    method Unchain(pos: int) returns (r: Option<T>)
      requires Valid() && 0 <= pos < size
      modifies this, nodes`next, nodes`prev
      ensures Valid() && r == Some(old(elems)[pos])
      ensures elems == Removed(old(elems), pos) && marks == Removed(old(marks), pos)
      ensures nodes == Removed(old(nodes), pos)
    {
      ValidReachable();
      var xobj := GoToPosition(pos);
      var h, e := RemoveShape(home, end, size, nodes, elems, marks, pos, xobj);
      SetFields(h, e, size - 1, Removed(nodes, pos), Removed(elems, pos), Removed(marks, pos));
      return Some(xobj.obj);
    }

    /** DeleteAt: nothing and no error on an empty list, `ErrInvalidIndex`
        for a position outside the list, otherwise the node at `pos` is
        unlinked and its payload returned; `home` and `end` follow when it
        was the first or the last. */
    method DeleteAt(pos: int) returns (r: Option<T>, err: Option<Error>)
      requires Valid()
      modifies this, nodes`next, nodes`prev
      ensures Valid()
      ensures old(elems) == [] ==> r == None && err == None && elems == old(elems) && nodes == old(nodes)
      ensures old(elems) != [] && !(0 <= pos < old(size)) ==>
        r == None && err == Some(ErrInvalidIndex) && elems == old(elems) && nodes == old(nodes)
      ensures 0 <= pos < old(size) ==> r == Some(old(elems)[pos]) && err == None
      ensures 0 <= pos < old(size) ==> elems == Removed(old(elems), pos) && marks == Removed(old(marks), pos)
      ensures 0 <= pos < old(size) ==> nodes == Removed(old(nodes), pos)
    {
      if home == null && end == null {
        return None, None;
      }
      if pos < 0 || pos >= size {
        return None, Some(ErrInvalidIndex);
      }
      r := Unchain(pos);
      return Some(r.value), None;
    }

    /** DeleteLast: `ErrElementNotFound` on an empty list, otherwise
        DeleteAt of the last position. */
    method DeleteLast() returns (r: Option<T>, err: Option<Error>)
      requires Valid()
      modifies this, nodes`next, nodes`prev
      ensures Valid()
      ensures old(elems) == [] ==> r == None && err == Some(ErrElementNotFound)
      ensures old(elems) == [] ==> elems == old(elems) && nodes == old(nodes) && marks == old(marks)
      ensures old(elems) != [] ==> r == Some(old(elems)[|old(elems)| - 1]) && err == None
      ensures old(elems) != [] ==> elems == old(elems)[..|old(elems)| - 1]
      ensures old(elems) != [] ==> nodes == old(nodes)[..|old(nodes)| - 1] && marks == old(marks)[..|old(marks)| - 1]
    {
      if end == null {
        return None, Some(ErrElementNotFound);
      }
      ghost var s0, m0 := nodes, marks;
      r, err := DeleteAt(size - 1);
      assert Removed(s0, |s0| - 1) == s0[..|s0| - 1];
      assert Removed(m0, |m0| - 1) == m0[..|m0| - 1];
    }

    /** swap: exchanges the payloads at `i` and `j` when both name nodes. */
    method SwapPayloads(i: int, j: int)
      requires Valid()
      modifies this, nodes`obj
      ensures Valid() && nodes == old(nodes) && marks == old(marks)
      ensures 0 <= i < old(size) && 0 <= j < old(size) ==> elems == Swapped(old(elems), i, j)
      ensures !(0 <= i < old(size) && 0 <= j < old(size)) ==> elems == old(elems)
    {
      if i == j {
        assert 0 <= i < size ==> Swapped(elems, i, j) == elems;
        return;
      }
      ValidReachable();
      var objI := GoToPosition(i);
      var objJ := GoToPosition(j);
      if objI != null && objJ != null {
        ghost var s, v := nodes, elems;
        elems := Swapped(v, i, j);
        SwapObjs(s, v, objI, objJ, i, j);
      }
    }

    /** Add, as corrected: a new list holding copies of the receiver's
        payloads followed by copies of `d`'s, in fresh unmarked nodes; the
        receiver and `d` are left as they are. */
    method Add(d: XList<T>) returns (r: XList<T>)
      requires Valid() && d.Valid()
      ensures fresh(r) && r.Valid()
      ensures r.elems == elems + d.elems && r.marks == Unset(|elems| + |d.elems|)
    {
      var de := d.IsEmpty();
      var pe := IsEmpty();
      if de && pe {
        r := new XList.Empty();
        return;
      }
      if de {
        assert elems + d.elems == elems;
        r := Copy();
        return;
      }
      if pe {
        assert elems + d.elems == d.elems;
        r := d.Copy();
        return;
      }
      r := AddBoth(d);
    }

    /** Add's last branch, for two non-empty lists: the copy of `d` joined
        after the copy of the receiver. */
    method AddBoth(d: XList<T>) returns (r: XList<T>)
      requires Valid() && d.Valid() && size > 0 && d.size > 0
      ensures fresh(r) && r.Valid()
      ensures r.elems == elems + d.elems && r.marks == Unset(|elems| + |d.elems|)
    {
      var targetCp, sourceCp := CopyBoth(d);
      UnsetConcat(|elems|, |d.elems|);
      targetCp.Concat(sourceCp);
      return targetCp;
    }

    /** Add as written: when both lists are non-empty, the first node of
        the copy of `d` links back to the receiver's own last node instead
        of the last node of the receiver's copy, so from the copy's last
        node one step forward and one step back does not return. */
    method AddAsWritten(d: XList<T>) returns (r: XList<T>)
      requires Valid() && d.Valid()
      ensures |elems| > 0 && |d.elems| > 0 ==>
        |r.nodes| == |elems| && r.nodes[|elems| - 1].next != null &&
        r.nodes[|elems| - 1].next.prev == end && end != r.nodes[|elems| - 1]
    {
      var de := d.IsEmpty();
      var pe := IsEmpty();
      if de && pe {
        r := new XList.Empty();
        return;
      }
      if de {
        r := Copy();
        return;
      }
      if pe {
        r := d.Copy();
        return;
      }
      r := AddBothAsWritten(d);
    }

    /** Add's last branch as written: the copy of `d` is linked back to the
        receiver's own last node. */
    method AddBothAsWritten(d: XList<T>) returns (r: XList<T>)
      requires Valid() && d.Valid() && size > 0 && d.size > 0
      ensures |r.nodes| == |elems| && r.nodes[|elems| - 1].next != null &&
        r.nodes[|elems| - 1].next.prev == end && end != r.nodes[|elems| - 1]
    {
      var targetCp, sourceCp := CopyBoth(d);
      targetCp.ConcatAsWritten(sourceCp, end);
      return targetCp;
    }

    /** The two copies Add joins: fresh lists, with fresh nodes, of the
        receiver's payloads and of `d`'s. */
    method CopyBoth(d: XList<T>) returns (a: XList<T>, b: XList<T>)
      requires Valid() && d.Valid()
      ensures fresh(a) && fresh(b) && a != b && a.Valid() && b.Valid()
      ensures a.elems == elems && a.marks == Unset(|elems|) && b.elems == d.elems && b.marks == Unset(|d.elems|)
      ensures Disjoint(a.nodes, b.nodes)
      ensures forall k :: 0 <= k < |a.nodes| ==> fresh(a.nodes[k])
      ensures forall k :: 0 <= k < |b.nodes| ==> fresh(b.nodes[k])
    {
      a := Copy();
      b := d.Copy();
      forall x | x in a.nodes
        ensures x !in b.nodes
      {
      }
    }

    /** Links the chain of `d`, a non-empty list with no node in common,
        after the last node of this non-empty list; `d`'s fields are left
        as they were. */
    method Concat(d: XList<T>)
      requires Valid() && d.Valid() && d != this && size > 0 && d.size > 0 && Disjoint(nodes, d.nodes)
      modifies this, {end}`next, {d.home}`prev
      ensures Valid() && nodes == old(nodes) + d.nodes && elems == old(elems) + d.elems && marks == old(marks) + d.marks
    {
      ghost var s1, v1, m1, s2, v2, m2 := nodes, elems, marks, d.nodes, d.elems, d.marks;
      var h1, e1, n1, h2, e2, n2 := home, end, size, d.home, d.end, d.size;
      JoinShape(h1, e1, n1, s1, v1, m1, h2, e2, n2, s2, v2, m2);
      SetFields(h1, e2, n1 + n2, s1 + s2, v1 + v2, m1 + m2);
    }

    /** Add's joining step as written: the last node of this list links
        forward to `d`'s first node, which links back to `back`; `end` and
        `size` take in `d`'s, the ghost fields are not maintained. */
    method ConcatAsWritten(d: XList<T>, back: Node?<T>)
      requires Valid() && d.Valid() && d != this && size > 0 && d.size > 0
      modifies this, {end}`next, {d.home}`prev
      ensures nodes == old(nodes) && |nodes| > 0 && nodes[|nodes| - 1].next == d.home && d.home != null && d.home.prev == back
      ensures end == d.end && size == old(size) + d.size
    {
      end.next := d.home;
      d.home.prev := back;
      end := d.end;
      size := size + d.size;
    }

    /** Move: nothing for a nil or empty `d`; otherwise `d`'s nodes follow
        the receiver's and `d` is left empty. */
    method Move(d: XList?<T>)
      requires Valid() && (d != null ==> d.Valid() && d != this && Disjoint(nodes, d.nodes))
      modifies this, nodes`next, if d == null then {} else {d, d.home}
      ensures Valid()
      ensures d == null || old(d.elems) == [] ==> nodes == old(nodes) && elems == old(elems) && marks == old(marks)
      ensures d != null && old(d.elems) != [] ==>
        nodes == old(nodes) + old(d.nodes) && elems == old(elems) + old(d.elems) && marks == old(marks) + old(d.marks)
      ensures d != null ==> d.Valid() && d.elems == []
    {
      if d == null {
        return;
      }
      var de := d.IsEmpty();
      if de {
        return;
      }
      // MoveAtPos(size, d) with a non-empty `d` takes its tail branch.
      MoveToEnd(d);
    }

    /** MoveAtPos, as corrected: nothing for an empty `d`; a position
        outside `[0, size]` is refused with `ErrInvalidIndex` and no change;
        otherwise `d`'s nodes come in front of the node at `pos` (after the
        last one for `pos == size`), `size` grows by `d`'s size and `d` is
        left empty. */
    method MoveAtPos(pos: int, d: XList<T>) returns (err: Option<Error>)
      requires Valid() && d.Valid() && d != this && Disjoint(nodes, d.nodes)
      modifies this, d, nodes`next, nodes`prev, {d.home}`prev, {d.end}`next
      ensures Valid() && d.Valid()
      ensures old(d.elems) == [] ==> err == None && nodes == old(nodes) && elems == old(elems) && d.nodes == []
      ensures old(d.elems) != [] && !(0 <= pos <= old(size)) ==>
        err == Some(ErrInvalidIndex) && nodes == old(nodes) && elems == old(elems) && marks == old(marks) &&
        d.nodes == old(d.nodes) && d.elems == old(d.elems)
      ensures old(d.elems) != [] && 0 <= pos <= old(size) ==>
        err == None && nodes == Inserted(old(nodes), pos, old(d.nodes)) && elems == Inserted(old(elems), pos, old(d.elems)) &&
        marks == Inserted(old(marks), pos, old(d.marks)) && d.elems == [] && d.nodes == []
    {
      var de := d.IsEmpty();
      if de {
        return None;
      }
      if pos < 0 || pos > size {
        return Some(ErrInvalidIndex);
      }
      if pos == size {
        InsertAtEndAppends(nodes, d.nodes);
        InsertAtEndAppends(elems, d.elems);
        InsertAtEndAppends(marks, d.marks);
        MoveToEnd(d);
        return None;
      }
      MoveInside(pos, d);
      return None;
    }

    /** MoveAtPos's tail branch, as corrected: `d`'s nodes follow the
        receiver's, and become the whole list when the receiver is empty;
        `d` is left empty. */
    method MoveToEnd(d: XList<T>)
      requires Valid() && d.Valid() && d != this && Disjoint(nodes, d.nodes) && d.elems != []
      modifies this, d, {end}`next, {d.home}`prev
      ensures Valid() && nodes == old(nodes) + old(d.nodes) && elems == old(elems) + old(d.elems)
      ensures marks == old(marks) + old(d.marks)
      ensures d.Valid() && d.elems == [] && d.nodes == []
    {
      if end == null {
        ghost var s2, v2, m2 := d.nodes, d.elems, d.marks;
        var h2, e2, n2 := d.home, d.end, d.size;
        SetFields(h2, e2, n2, s2, v2, m2);
        d.Clear();
        return;
      }
      Concat(d);
      d.Clear();
    }

    /** MoveAtPos's mid-list branch, as corrected: `d`'s nodes come in
        front of the node at `pos`, `home` moving to `d`'s first node when
        `pos` is 0, and `d` is left empty. */
    method MoveInside(pos: int, d: XList<T>)
      requires Valid() && d.Valid() && d != this && Disjoint(nodes, d.nodes) && d.elems != [] && 0 <= pos < size
      modifies this, d, nodes`next, nodes`prev, {d.home}`prev, {d.end}`next
      ensures Valid() && nodes == Inserted(old(nodes), pos, old(d.nodes)) && elems == Inserted(old(elems), pos, old(d.elems))
      ensures marks == Inserted(old(marks), pos, old(d.marks))
      ensures d.Valid() && d.elems == [] && d.nodes == []
    {
      ValidReachable();
      var xobj := GoToPosition(pos);
      ghost var s, v, m, s2, v2, m2 := nodes, elems, marks, d.nodes, d.elems, d.marks;
      var h2, e2, n2 := d.home, d.end, d.size;
      var h := SpliceShape(home, end, size, s, v, m, pos, xobj, h2, e2, n2, s2, v2, m2);
      SetFields(h, end, size + n2, Inserted(s, pos, s2), Inserted(v, pos, v2), Inserted(m, pos, m2));
      d.Clear();
    }

    /** MoveAtPos's tail branch as written: on an empty receiver `home`
        stays nil while `end` and `size` take `d`'s, so the receiver is
        neither empty nor reachable from `home`. */
    method MoveToEndAsWritten(d: XList<T>)
      requires Valid() && d.Valid() && d != this && Disjoint(nodes, d.nodes) && d.elems != []
      modifies this, d, {end}`next, {d.home}`prev
      ensures old(elems) == [] ==> home == null && end != null && size > 0
    {
      if end != null {
        end.next := d.home;
      }
      if d.home != null {
        d.home.prev := end;
      }
      end := d.end;
      size := size + d.size;
      d.Clear();
    }

    /** MoveAtPos's mid-list branch as written: the node at `pos` ends up
        as its own predecessor, the last node of `d` is never linked to it,
        and `home` and `size` stay as they were. */
    method MoveInsideAsWritten(pos: int, d: XList<T>)
      requires Valid() && d.Valid() && d != this && Disjoint(nodes, d.nodes) && d.elems != [] && 0 <= pos < size
      modifies d, nodes`next, nodes`prev, {d.home}`prev
      ensures old(nodes[pos]).prev == old(nodes[pos])
      ensures old(d.end).next == null
      ensures home == old(home) && size == old(size)
    {
      ValidReachable();
      var xobj := GoToPosition(pos);
      ghost var last := d.end;
      DisjointAt(d.nodes, nodes, |d.nodes| - 1, xobj);
      if pos > 0 {
        DisjointAt(d.nodes, nodes, |d.nodes| - 1, nodes[pos - 1]);
      }
      ChainStep(nodes, pos);
      if xobj.prev != null {
        xobj.prev.next := d.home;
      }
      if d.home != null {
        d.home.prev := xobj.prev;
      }
      d.end := xobj;
      xobj.prev := d.end;
      d.Clear();
    }

    /** Copy: a new list with copies of all payloads, in fresh unmarked
        nodes; an empty list gives a new empty list. */
    method Copy() returns (r: XList<T>)
      requires Valid()
      ensures fresh(r) && r.Valid() && r.elems == elems && r.marks == Unset(|elems|)
      ensures forall k :: 0 <= k < |r.nodes| ==> fresh(r.nodes[k])
    {
      var e := IsEmpty();
      if e {
        r := new XList.Empty();
        return;
      }
      var na, err := CopyRange(0, size - 1);
      assert elems[0..size] == elems;
      return na;
    }

    /** CopyRange: a new list holding copies of the payloads from `fromPos`
        to `toPos`, in order, in fresh unmarked nodes; `ErrInvalidIndex`
        unless `0 <= fromPos <= toPos < size`, which rules out every range
        of an empty list. */
    method CopyRange(fromPos: int, toPos: int) returns (r: XList?<T>, err: Option<Error>)
      requires Valid()
      ensures 0 <= fromPos <= toPos < |elems| ==>
        err == None && r != null && fresh(r) && r.Valid() && r.elems == elems[fromPos..toPos + 1] &&
        r.marks == Unset(toPos + 1 - fromPos) && forall k :: 0 <= k < |r.nodes| ==> fresh(r.nodes[k])
      ensures !(0 <= fromPos <= toPos < |elems|) ==> r == null && err == Some(ErrInvalidIndex)
    {
      var newList, i := CopyLoop(nodes, elems, home, fromPos, toPos);
      if newList == null || i != toPos + 1 {
        return null, Some(ErrInvalidIndex);
      }
      return newList, None;
    }

    /** Find, as corrected: a new list of the payloads `accept` takes
        with their index, in order; an empty list gives a new empty list. */
    method Find(accept: (int, T) -> bool) returns (r: XList<T>)
      requires Valid()
      ensures fresh(r) && r.Valid() && r.elems == Found(elems, accept)
    {
      r := FindLoop(nodes, elems, home, accept);
    }

    /** Find as written, on a non-empty list: its loop starts at `home`
        with index 0, and every round leaves the cursor there. */
    lemma FindAsWrittenLoops(accept: (int, T) -> bool, k: nat)
      requires Valid() && elems != []
      ensures FindRoundsAsWritten(FindState(home, 0, []), accept, k).cursor == home != null
    {
      FindNeverEnds(FindState(home, 0, []), accept, k);
    }

    /** Swap: `ErrInvalidIndex` when either index is outside the list, no
        change for equal indices, otherwise the two payloads change places. */
    method Swap(i: int, j: int) returns (err: Option<Error>)
      requires Valid()
      modifies this, nodes`obj
      ensures Valid() && nodes == old(nodes) && marks == old(marks)
      ensures !(0 <= i < old(size) && 0 <= j < old(size)) ==> err == Some(ErrInvalidIndex) && elems == old(elems)
      ensures 0 <= i < old(size) && 0 <= j < old(size) ==> err == None && elems == Swapped(old(elems), i, j)
    {
      if i < 0 || j < 0 || i > size - 1 || j > size - 1 {
        return Some(ErrInvalidIndex);
      }
      if i == j {
        assert Swapped(elems, i, j) == elems;
        return None;
      }
      SwapPayloads(i, j);
      return None;
    }

    /** markAt: the mark of the node at `index` becomes `b`; an index with
        no node changes nothing. */
    method SetMarkAt(index: int, b: bool)
      requires Valid()
      modifies this, nodes`mark
      ensures Valid() && nodes == old(nodes) && elems == old(elems)
      ensures marks == if 0 <= index < |old(marks)| then old(marks)[index := b] else old(marks)
    {
      ValidReachable();
      var xobj := GoToPosition(index);
      if xobj != null {
        ghost var m := marks;
        marks := m[index := b];
        SetMark(nodes, m, xobj, index, b);
      }
    }

    /** MarkAtIndex: only the node at `index`, if any, becomes marked. */
    method MarkAtIndex(index: int)
      requires Valid()
      modifies this, nodes`mark
      ensures Valid() && nodes == old(nodes) && elems == old(elems)
      ensures marks == if 0 <= index < |old(marks)| then old(marks)[index := true] else old(marks)
    {
      SetMarkAt(index, true);
    }

    /** UnmarkAtIndex: only the node at `index`, if any, becomes unmarked. */
    method UnmarkAtIndex(index: int)
      requires Valid()
      modifies this, nodes`mark
      ensures Valid() && nodes == old(nodes) && elems == old(elems)
      ensures marks == if 0 <= index < |old(marks)| then old(marks)[index := false] else old(marks)
    {
      SetMarkAt(index, false);
    }

    /** IsMarkedAtIndex: the mark at `index`; false where there is no node. */
    method IsMarkedAtIndex(index: int) returns (r: bool)
      requires Valid()
      ensures r <==> 0 <= index < |marks| && marks[index]
    {
      ValidReachable();
      var xobj := GoToPosition(index);
      if xobj != null {
        return xobj.mark;
      }
      return false;
    }

    /** MarkAll: every node is marked afterwards. */
    method MarkAll()
      requires Valid()
      modifies this, nodes`mark
      ensures Valid() && nodes == old(nodes) && elems == old(elems)
      ensures marks == seq(|nodes|, _ => true)
    {
      MarkChain(nodes, home, true);
      SetFields(home, end, size, nodes, elems, seq(|nodes|, _ => true));
    }

    /** UnmarkAll: no node is marked afterwards. */
    method UnmarkAll()
      requires Valid()
      modifies this, nodes`mark
      ensures Valid() && nodes == old(nodes) && elems == old(elems)
      ensures marks == seq(|nodes|, _ => false)
    {
      MarkChain(nodes, home, false);
      SetFields(home, end, size, nodes, elems, seq(|nodes|, _ => false));
    }

    /** Modify: each payload becomes `change` of its index and itself,
        `change` being called on indices 0, 1, ... in order; the list
        itself is returned. */
    method Modify(change: (int, T) -> T) returns (r: XList<T>, ghost calls: seq<(int, T)>)
      requires Valid()
      modifies this, nodes`obj
      ensures Valid() && r == this && nodes == old(nodes) && marks == old(marks)
      ensures elems == Modified(old(elems), change) && calls == Indexed(old(elems))
    {
      calls := ModifyChain(nodes, elems, home, change);
      SetFields(home, end, size, nodes, Modified(elems, change), marks);
      return this, calls;
    }

    /** ModifyRev: the same payloads as Modify, `change` being called on
        indices size - 1 down to 0. */
    method ModifyRev(change: (int, T) -> T) returns (r: XList<T>, ghost calls: seq<(int, T)>)
      requires Valid()
      modifies this, nodes`obj
      ensures Valid() && r == this && nodes == old(nodes) && marks == old(marks)
      ensures elems == Modified(old(elems), change) && calls == Rev(Indexed(old(elems)))
    {
      calls := ModifyChainRev(nodes, elems, end, size, change);
      SetFields(home, end, size, nodes, Modified(elems, change), marks);
      return this, calls;
    }

    /** ForwardPtr: the pairs (index, payload) from the first node on, as
        far as `visit` lets the traversal go. */
    method ForwardPtr(visit: ((int, T)) -> bool) returns (out: seq<(int, T)>)
      requires Valid()
      ensures out == Delivered(Indexed(elems), visit)
    {
      out := WalkForward(nodes, elems, home, visit);
    }

    /** BackwardPtr: the pairs (index, payload) from the last node back,
        indices counting down from size - 1. */
    method BackwardPtr(visit: ((int, T)) -> bool) returns (out: seq<(int, T)>)
      requires Valid()
      ensures out == Delivered(Rev(Indexed(elems)), visit)
    {
      out := WalkBackward(nodes, elems, end, size, visit);
    }

    /** Values: the payloads from the first node on. */
    method Values(visit: T -> bool) returns (out: seq<T>)
      requires Valid()
      ensures out == Delivered(elems, visit)
    {
      out := WalkValues(nodes, elems, home, visit);
    }

    /** ValuesRev: the payloads from the last node back. */
    method ValuesRev(visit: T -> bool) returns (out: seq<T>)
      requires Valid()
      ensures out == Delivered(Rev(elems), visit)
    {
      out := WalkValuesRev(nodes, elems, end, visit);
    }

    /** PDQSort: lists of fewer than two elements are left alone; otherwise
        the payloads are rearranged among the same nodes, and put in order
        when `less` is a strict weak ordering. Links, marks and size stay, and
        a list already in order under `less` is left exactly as it was. */
    method PDQSort(less: (T, T) -> bool)
      requires Valid()
      modifies this, nodes`obj
      ensures Valid() && nodes == old(nodes) && marks == old(marks) && size == old(size)
      ensures multiset(elems) == multiset(old(elems))
      ensures |old(elems)| < 2 ==> elems == old(elems)
      ensures StrictWeakOrder(less) ==> Sorted(elems, 0, |elems|, less)
      ensures Sorted(old(elems), 0, |old(elems)|, less) ==> elems == old(elems)
    {
      var n := size;
      if n < 2 {
        return;
      }
      ghost var r := PdqsortList(nodes, elems, home, end, n, BitLen(n), less, 0);
      SetFields(home, end, size, nodes, r, marks);
    }

    /** Sort: PDQSort. */
    method Sort(less: (T, T) -> bool)
      requires Valid()
      modifies this, nodes`obj
      ensures Valid() && nodes == old(nodes) && marks == old(marks) && size == old(size)
      ensures multiset(elems) == multiset(old(elems))
      ensures |old(elems)| < 2 ==> elems == old(elems)
      ensures StrictWeakOrder(less) ==> Sorted(elems, 0, |elems|, less)
      ensures Sorted(old(elems), 0, |old(elems)|, less) ==> elems == old(elems)
    {
      PDQSort(less);
    }
  }

  /** The `dirChanges` closure of the Modify/ModifyRev test: `n` rounds of
      Modify, each adding one to every payload. */
  method DirChanges(list: XList<int>, n: nat)
    requires list.Valid()
    modifies list, list.nodes`obj
    ensures list.Valid() && list.nodes == old(list.nodes)
    ensures list.elems == ModifiedTimes(old(list.elems), Increment, n)
  {
    ghost var v0 := list.elems;
    ghost var s0 := list.nodes;
    for i := 0 to n
      invariant list.Valid() && list.nodes == s0
      invariant list.elems == ModifiedTimes(v0, Increment, i)
    {
      var _, _ := list.Modify(Increment);
    }
  }

  /** The `revChanges` closure: `n` rounds of ModifyRev, each adding one to
      every payload. */
  method RevChanges(list: XList<int>, n: nat)
    requires list.Valid()
    modifies list, list.nodes`obj
    ensures list.Valid() && list.nodes == old(list.nodes)
    ensures list.elems == ModifiedTimes(old(list.elems), Increment, n)
  {
    ghost var v0 := list.elems;
    ghost var s0 := list.nodes;
    for i := 0 to n
      invariant list.Valid() && list.nodes == s0
      invariant list.elems == ModifiedTimes(v0, Increment, i)
    {
      var _, _ := list.ModifyRev(Increment);
    }
  }

  /** The scenario of the Modify/ModifyRev test on its own: `n` rounds of
      Modify and then `n` rounds of ModifyRev, each adding one to every
      payload, leave every payload raised by `2 * n`. */
  method ModifyBothWays(list: XList<int>, n: nat)
    requires list.Valid()
    modifies list, list.nodes`obj
    ensures list.Valid() && list.nodes == old(list.nodes)
    ensures list.elems == ModifiedTimes(old(list.elems), Increment, 2 * n)
    ensures forall k :: 0 <= k < |list.elems| ==> list.elems[k] == old(list.elems[k]) + 2 * n
  {
    ghost var v0 := list.elems;
    DirChanges(list, n);
    RevChanges(list, n);
    ModifiedTimesAdd(v0, Increment, n, n);
    IncrementTimes(v0, 2 * n);
  }
}
