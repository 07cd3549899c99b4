/** insertionSortList of the list PDQSort (sort-pdq.go): insertion sort of a
    segment by exchanging each new node's payload with its predecessor's
    until it stands in order. The nodes are tracked by their offsets from
    `lo` in the ghost chain. */
module PdqInsertion {
  import opened Nodes
  import opened Ordering
  import opened PdqPrimitives

  /** The state of the inner loop that inserts the element now at offset `j`
      into the sorted offsets `[0, c)`: the parts before and after `j` are
      sorted, the part before may stand before the part after, and so may the
      element being inserted. */
  ghost predicate Inserting<T>(r: seq<T>, b: int, c: int, j: int, less: (T, T) -> bool)
    requires 0 <= b && 0 <= j <= c && b + c < |r|
  {
    Sorted(r, b, b + j, less) && Sorted(r, b + j + 1, b + c + 1, less) &&
    Below(r, b, b + j, b + j + 1, b + c + 1, less) &&
    (forall q :: b + j < q <= b + c ==> !less(r[q], r[b + j]))
  }

  /** The inner loop starts with the new element after a sorted prefix. */
  lemma InsertingStart<T>(r: seq<T>, b: int, c: int, less: (T, T) -> bool)
    requires 0 <= b && 0 <= c && b + c < |r| && Sorted(r, b, b + c, less)
    ensures Inserting(r, b, c, c, less)
  {
  }

  /** Exchanging the element being inserted with a predecessor it must
      precede keeps the inner loop's state, one offset further left. */
  lemma {:induction false} InsertingStep<T(!new)>(r: seq<T>, b: int, c: int, j: int, less: (T, T) -> bool)
    requires StrictWeakOrder(less)
    requires 0 <= b && 0 < j <= c && b + c < |r| && Inserting(r, b, c, j, less)
    requires less(r[b + j], r[b + j - 1])
    ensures Inserting(Swapped(r, b + j, b + j - 1), b, c, j - 1, less)
  {
    var r' := Swapped(r, b + j, b + j - 1);
    var x, y := r[b + j], r[b + j - 1];
    assert !less(y, x);
    forall p, q | b + j <= p < q < b + c + 1
      ensures !less(r'[q], r'[p])
    {
      if p == b + j {
        assert r'[p] == y;
        assert b + j - 1 < b + j < b + j + 1 <= q;
      }
    }
    forall p, q | b <= p < b + j - 1 && b + j <= q < b + c + 1
      ensures !less(r'[q], r'[p])
    {
      if q == b + j {
        assert r'[q] == y && r'[p] == r[p];
      }
    }
    forall q | b + j - 1 < q <= b + c
      ensures !less(r'[q], r'[b + j - 1])
    {
      if q == b + j {
        assert r'[q] == y && r'[b + j - 1] == x;
      }
    }
  }

  /** When the inner loop stops, at the front or behind a predecessor that
      need not follow it, the prefix through `c` is sorted. */
  lemma {:induction false} InsertingDone<T(!new)>(r: seq<T>, b: int, c: int, j: int, less: (T, T) -> bool)
    requires StrictWeakOrder(less)
    requires 0 <= b && 0 <= j <= c && b + c < |r| && Inserting(r, b, c, j, less)
    requires j > 0 ==> !less(r[b + j], r[b + j - 1])
    ensures Sorted(r, b, b + c + 1, less)
  {
    forall p, q | b <= p < q < b + c + 1
      ensures !less(r[q], r[p])
    {
      if q == b + j && p < b + j - 1 {
        assert !less(r[b + j - 1], r[p]);
      }
    }
  }

  /** One exchange of the inner loop: the payload at `j` changes places with
      its predecessor's. */
  method SwapWithPrev<T(!new)>(ghost s: seq<Node<T>>, ghost v: seq<T>, ghost r: seq<T>, j: Node<T>, ghost jOff: int,
                         less: (T, T) -> bool, ghost b: int, ghost n: int, ghost c: int)
    returns (j': Node<T>, ghost r': seq<T>, ghost jOff': int)
    requires Chain(s) && Stores(s, r) && 0 <= b && b + n <= |s| && Perm(v, r, b, b + n)
    requires 0 < jOff <= c < n && j == s[b + jOff]
    requires StrictWeakOrder(less) ==> Inserting(r, b, c, jOff, less)
    requires less(r[b + jOff], r[b + jOff - 1])
    modifies s`obj
    ensures Stores(s, r') && Perm(v, r', b, b + n)
    ensures jOff' == jOff - 1 && 0 <= jOff' <= c && j' == s[b + jOff']
    ensures StrictWeakOrder(less) ==> Inserting(r', b, c, jOff', less)
  {
    ChainStep(s, b + jOff);
    SwapObjs(s, r, j, j.prev, b + jOff, b + jOff - 1);
    PermThenSwap(v, r, b + jOff, b + jOff - 1, b, b + n);
    if StrictWeakOrder(less) {
      InsertingStep(r, b, c, jOff, less);
    }
    j', r', jOff' := j.prev, Swapped(r, b + jOff, b + jOff - 1), jOff - 1;
  }

  /** The inner loop of insertionSortList: moves the payload of `cur`, at
      offset `c`, left past every predecessor it must precede. */
  method InsertNode<T(!new)>(ghost s: seq<Node<T>>, ghost v: seq<T>, ghost r: seq<T>, cur: Node<T>, lo: Node<T>,
                       less: (T, T) -> bool, ghost b: int, ghost n: int, ghost c: int)
    returns (ghost r': seq<T>)
    requires Chain(s) && Stores(s, r) && 0 <= b && b + n <= |s| && Perm(v, r, b, b + n)
    requires 0 < c < n && cur == s[b + c] && lo == s[b]
    requires StrictWeakOrder(less) ==> Sorted(r, b, b + c, less)
    modifies s`obj
    ensures Stores(s, r') && Perm(v, r', b, b + n)
    ensures StrictWeakOrder(less) ==> Sorted(r', b, b + c + 1, less)
    ensures AdjSorted(r, b, b + c + 1, less) ==> r' == r
  {
    var j := cur;
    ghost var jOff := c;
    ghost var inOrder := !less(r[b + c], r[b + c - 1]);
    r' := r;
    if StrictWeakOrder(less) {
      InsertingStart(r, b, c, less);
    }
    ChainStep(s, b + jOff);
    DistinctAt(s, b + jOff, b);
    while j != lo && less(j.obj, j.prev.obj)
      invariant 0 <= jOff <= c && j == s[b + jOff]
      invariant j != lo <==> jOff > 0
      invariant jOff > 0 ==> j.prev == s[b + jOff - 1]
      invariant Stores(s, r') && Perm(v, r', b, b + n)
      invariant StrictWeakOrder(less) ==> Inserting(r', b, c, jOff, less)
      invariant inOrder ==> r' == r && jOff == c
      decreases jOff
    {
      assert j.obj == r'[b + jOff] && j.prev.obj == r'[b + jOff - 1];
      j, r', jOff := SwapWithPrev(s, v, r', j, jOff, less, b, n, c);
      ChainStep(s, b + jOff);
      if jOff > 0 {
        DistinctAt(s, b + jOff, b);
      }
    }
    if StrictWeakOrder(less) {
      assert jOff > 0 ==> j.obj == r'[b + jOff] && j.prev.obj == r'[b + jOff - 1];
      InsertingDone(r', b, c, jOff, less);
    }
  }

  /** The step of the cursor forward, `cur = cur.next`, from a node short of
      the last one of the segment. */
  method StepForward<T>(ghost s: seq<Node<T>>, cur: Node<T>, hi: Node<T>, ghost b: int, ghost n: int, ghost c: int)
    returns (cur': Node<T>, ghost c': int)
    requires Chain(s) && 0 <= b && 0 <= c < n && b + n <= |s| && cur == s[b + c] && hi == s[b + n - 1] && cur != hi
    ensures c' == c + 1 && 0 < c' < n && cur' == s[b + c']
  {
    ChainStep(s, b + c);
    cur', c' := cur.next, c + 1;
  }

  /** insertionSortList: sorts the `n` nodes from `lo` to `hi` by insertion;
      `r` is the payloads afterwards. */
  method InsertionSortList<T(!new)>(ghost s: seq<Node<T>>, ghost v: seq<T>, lo: Node<T>, hi: Node<T>,
                              less: (T, T) -> bool, ghost b: int, ghost n: int)
    returns (ghost r: seq<T>)
    requires Chain(s) && Stores(s, v) && 0 <= b && 1 <= n && b + n <= |s|
    requires lo == s[b] && hi == s[b + n - 1]
    modifies s`obj
    ensures Stores(s, r) && Perm(v, r, b, b + n)
    ensures StrictWeakOrder(less) ==> Sorted(r, b, b + n, less)
    ensures AdjSorted(v, b, b + n, less) ==> r == v
  {
    r := v;
    PermRefl(v, b, b + n);
    if lo == hi {
      if n > 1 {
        DistinctAt(s, b, b + n - 1);
      }
      return;
    }
    ChainStep(s, b);
    var cur := lo.next;
    ghost var c := 1;
    while cur != null
      invariant 0 < c < n && cur == s[b + c]
      invariant Stores(s, r) && Perm(v, r, b, b + n)
      invariant StrictWeakOrder(less) ==> Sorted(r, b, b + c, less)
      invariant AdjSorted(v, b, b + n, less) ==> r == v
      decreases n - c
    {
      r := InsertNode(s, v, r, cur, lo, less, b, n, c);
      if cur == hi {
        SameNodeSameIndex(s, b + c, b + n - 1);
        break;
      }
      cur, c := StepForward(s, cur, hi, b, n, c);
    }
  }
}
