/** heapSortList and siftDownList of the list PDQSort (sort-pdq.go): the
    fallback heapsort. The nodes of the segment are first collected into an
    array for random access; a max-heap is then built over the array's
    positions and repeatedly shrunk, exchanging payloads only. */
module PdqHeap {
  import opened Nodes
  import opened Ordering
  import opened PdqPrimitives

  /** The element at heap index `k` of `w[b..b+m]` may stand after each of
      its children `2k+1` and `2k+2` that lie below `m`. */
  ghost predicate HeapAt<T>(w: seq<T>, b: int, m: int, k: int, less: (T, T) -> bool)
    requires 0 <= b && 0 <= k && 0 <= m && b + m <= |w|
  {
    (2 * k + 1 < m ==> !less(w[b + k], w[b + 2 * k + 1])) &&
    (2 * k + 2 < m ==> !less(w[b + k], w[b + 2 * k + 2]))
  }

  /** Every index of `[lo, m)` is a max-heap node. */
  ghost predicate Heap<T>(w: seq<T>, b: int, lo: int, m: int, less: (T, T) -> bool)
    requires 0 <= b && 0 <= lo && 0 <= m && b + m <= |w|
  {
    forall k :: lo <= k < m ==> HeapAt(w, b, m, k, less)
  }

  /** The state of siftDownList started at `start`, now at `r`: a heap except
      at `r`, whose parent (if `r` is not the start) may also stand after
      `r`'s children. */
  ghost predicate Sifting<T>(w: seq<T>, b: int, start: int, m: int, r: int, less: (T, T) -> bool)
    requires 0 <= b && 0 <= start <= r && 0 <= m && b + m <= |w| && (start < r ==> r < m)
  {
    (forall k :: start <= k < m && k != r ==> HeapAt(w, b, m, k, less)) &&
    (start < r ==>
      (start <= (r - 1) / 2 &&
       (2 * r + 1 < m ==> !less(w[b + (r - 1) / 2], w[b + 2 * r + 1])) &&
       (2 * r + 2 < m ==> !less(w[b + (r - 1) / 2], w[b + 2 * r + 2]))))
  }

  /** The child siftDownList descends to: the second child when the first
      precedes it, else the first. */
  ghost predicate BiggerChild<T>(w: seq<T>, b: int, m: int, r: int, c: int, less: (T, T) -> bool)
    requires 0 <= b && 0 <= r && 0 <= m && b + m <= |w|
  {
    (c == 2 * r + 1 && c < m && (c + 1 < m ==> !less(w[b + c], w[b + c + 1]))) ||
    (c == 2 * r + 2 && c < m && less(w[b + c - 1], w[b + c]))
  }

  lemma SiftingStart<T>(w: seq<T>, b: int, start: int, m: int, less: (T, T) -> bool)
    requires 0 <= b && 0 <= start && 0 <= m && b + m <= |w| && Heap(w, b, start + 1, m, less)
    ensures Sifting(w, b, start, m, start, less)
  {
  }

  /** Exchanging `r` with its bigger child, which `r` precedes, moves the
      hole down to that child. */
  lemma {:induction false} SiftingStep<T(!new)>(w: seq<T>, b: int, start: int, m: int, r: int, c: int, less: (T, T) -> bool)
    requires StrictWeakOrder(less)
    requires 0 <= b && 0 <= start <= r && 0 <= m && b + m <= |w| && (start < r ==> r < m)
    requires Sifting(w, b, start, m, r, less) && BiggerChild(w, b, m, r, c, less)
    requires less(w[b + r], w[b + c])
    ensures Sifting(Swapped(w, b + r, b + c), b, start, m, c, less)
  {
    var w' := Swapped(w, b + r, b + c);
    assert w'[b + r] == w[b + c] && w'[b + c] == w[b + r];
    forall k | start <= k < m && k != c
      ensures HeapAt(w', b, m, k, less)
    {
      if k == r {
        if 2 * r + 2 < m {
          if c == 2 * r + 1 {
            assert !less(w[b + c], w[b + c + 1]);
          } else {
            assert less(w[b + c - 1], w[b + c]);
          }
        }
      } else if start < r && k == (r - 1) / 2 {
        assert r == 2 * k + 1 || r == 2 * k + 2;
        assert HeapAt(w, b, m, k, less);
      } else {
        assert HeapAt(w, b, m, k, less);
        assert 2 * k + 1 != r && 2 * k + 2 != r;
        assert 2 * k + 1 != c && 2 * k + 2 != c;
      }
    }
    assert HeapAt(w, b, m, c, less);
  }

  /** When the hole has no child it precedes, the heap is whole again. */
  lemma SiftingStop<T(!new)>(w: seq<T>, b: int, start: int, m: int, r: int, c: int, less: (T, T) -> bool)
    requires StrictWeakOrder(less)
    requires 0 <= b && 0 <= start <= r && 0 <= m && b + m <= |w| && (start < r ==> r < m)
    requires Sifting(w, b, start, m, r, less)
    requires 2 * r + 1 < m ==> BiggerChild(w, b, m, r, c, less) && !less(w[b + r], w[b + c])
    ensures Heap(w, b, start, m, less)
  {
    if 2 * r + 1 < m {
      assert HeapAt(w, b, m, r, less);
    }
  }

  /** The top of a heap may stand before every element of it. */
  lemma {:induction false} HeapTop<T(!new)>(w: seq<T>, b: int, m: int, k: int, less: (T, T) -> bool)
    requires StrictWeakOrder(less)
    requires 0 <= b && 0 <= m && b + m <= |w| && Heap(w, b, 0, m, less) && 0 <= k < m
    ensures !less(w[b], w[b + k])
    decreases k
  {
    if k > 0 {
      var p := (k - 1) / 2;
      HeapTop(w, b, m, p, less);
      assert HeapAt(w, b, m, p, less);
      assert k == 2 * p + 1 || k == 2 * p + 2;
    }
  }

  /** Moving the top of the heap `[0, i]` to position `i` grows the sorted
      tail by one and leaves a heap on `[1, i)` with a hole at 0. */
  lemma ExtractSwap<T(!new)>(w: seq<T>, b: int, i: int, n: int, less: (T, T) -> bool)
    requires StrictWeakOrder(less)
    requires 0 <= b && 0 <= i < n && b + n <= |w|
    requires Heap(w, b, 0, i + 1, less) && Sorted(w, b + i + 1, b + n, less)
    requires Below(w, b, b + i + 1, b + i + 1, b + n, less)
    ensures Heap(Swapped(w, b, b + i), b, 1, i, less)
    ensures Sorted(Swapped(w, b, b + i), b + i, b + n, less)
    ensures Below(Swapped(w, b, b + i), b, b + i, b + i, b + n, less)
  {
    var w1 := Swapped(w, b, b + i);
    forall k | 1 <= k < i
      ensures HeapAt(w1, b, i, k, less)
    {
      assert HeapAt(w, b, i + 1, k, less);
    }
    forall p, q | b + i <= p < q < b + n
      ensures !less(w1[q], w1[p])
    {
      if p == b + i {
        assert !less(w[q], w[b]);
      }
    }
    forall p, q | b <= p < b + i && b + i <= q < b + n
      ensures !less(w1[q], w1[p])
    {
      var p' := if p == b then b + i else p;
      assert w1[p] == w[p'];
      if q == b + i {
        HeapTop(w, b, i + 1, p' - b, less);
      } else {
        assert !less(w[q], w[p']);
      }
    }
  }

  /** Rearranging the heap part keeps the sorted tail and its place above
      the heap. */
  lemma TailKept<T>(w1: seq<T>, w2: seq<T>, b: int, i: int, n: int, less: (T, T) -> bool)
    requires 0 <= b && 0 <= i <= n && b + n <= |w1| && Perm(w1, w2, b, b + i)
    requires Sorted(w1, b + i, b + n, less) && Below(w1, b, b + i, b + i, b + n, less)
    ensures Sorted(w2, b + i, b + n, less) && Below(w2, b, b + i, b + i, b + n, less)
  {
    forall q | b + i <= q < |w1|
      ensures w2[q] == w1[q]
    {
      assert w2[q] == w2[b + i..][q - b - i] && w1[q] == w1[b + i..][q - b - i];
    }
    forall q | b + i <= q < b + n
      ensures forall p :: b <= p < b + i ==> !less(w2[q], w2[p])
    {
      PermKeepsUpperBound(w1, w2, b, b + i, w1[q], less);
    }
  }

  /** One round of siftDownList's loop from the hole at `r`: either the
      loop ends here (`done`, payloads untouched) or the hole has moved down
      to the bigger child `r'`. */
  method SiftStep<T(!new)>(ghost s: seq<Node<T>>, nodes: array<Node<T>>, ghost w0: seq<T>, ghost w: seq<T>,
                           root: int, r: int, m: int, less: (T, T) -> bool, ghost b: int)
    returns (r': int, done: bool, ghost w': seq<T>)
    requires Distinct(s) && Stores(s, w) && 0 <= b && b + nodes.Length <= |s|
    requires forall k :: 0 <= k < nodes.Length ==> nodes[k] == s[b + k]
    requires 0 <= root && 0 <= m <= nodes.Length && Perm(w0, w, b, b + m)
    requires root <= r && (root < r ==> r < m)
    requires StrictWeakOrder(less) && Heap(w0, b, root + 1, m, less) ==> Sifting(w, b, root, m, r, less)
    modifies s`obj
    ensures Stores(s, w') && Perm(w0, w', b, b + m)
    ensures done ==> StrictWeakOrder(less) && Heap(w0, b, root + 1, m, less) ==> Heap(w', b, root, m, less)
    ensures !done ==> r < r' < m
    ensures !done ==> StrictWeakOrder(less) && Heap(w0, b, root + 1, m, less) ==> Sifting(w', b, root, m, r', less)
  {
    var child := 2 * r + 1;
    if child >= m {
      if StrictWeakOrder(less) && Heap(w0, b, root + 1, m, less) {
        SiftingStop(w, b, root, m, r, child, less);
      }
      return r, true, w;
    }
    if child + 1 < m && less(nodes[child].obj, nodes[child + 1].obj) {
      child := child + 1;
    }
    assert BiggerChild(w, b, m, r, child, less);
    if !less(nodes[r].obj, nodes[child].obj) {
      if StrictWeakOrder(less) && Heap(w0, b, root + 1, m, less) {
        SiftingStop(w, b, root, m, r, child, less);
      }
      return r, true, w;
    }
    w' := SiftSwap(s, nodes, w0, w, root, r, child, m, less, b);
    r', done := child, false;
  }

  /** The exchange of the hole at `r` with its bigger child `c`, which `r`
      precedes. */
  method SiftSwap<T(!new)>(ghost s: seq<Node<T>>, nodes: array<Node<T>>, ghost w0: seq<T>, ghost w: seq<T>,
                           root: int, r: int, c: int, m: int, less: (T, T) -> bool, ghost b: int)
    returns (ghost w': seq<T>)
    requires Distinct(s) && Stores(s, w) && 0 <= b && b + nodes.Length <= |s|
    requires forall k :: 0 <= k < nodes.Length ==> nodes[k] == s[b + k]
    requires 0 <= root && 0 <= m <= nodes.Length && Perm(w0, w, b, b + m)
    requires root <= r && (root < r ==> r < m)
    requires StrictWeakOrder(less) && Heap(w0, b, root + 1, m, less) ==> Sifting(w, b, root, m, r, less)
    requires BiggerChild(w, b, m, r, c, less) && less(w[b + r], w[b + c])
    modifies s`obj
    ensures Stores(s, w') && Perm(w0, w', b, b + m)
    ensures r < c < m
    ensures StrictWeakOrder(less) && Heap(w0, b, root + 1, m, less) ==> Sifting(w', b, root, m, c, less)
  {
    if StrictWeakOrder(less) && Heap(w0, b, root + 1, m, less) {
      SiftingStep(w, b, root, m, r, c, less);
    }
    PermThenSwap(w0, w, b + r, b + c, b, b + m);
    SwapObjs(s, w, nodes[r], nodes[c], b + r, b + c);
    w' := Swapped(w, b + r, b + c);
  }

  /** siftDownList: moves the payload at `root` down the heap `[0, m)` of the
      array positions, always towards the bigger child, until it precedes
      neither child. The payloads outside `[0, m)` stay put. */
  method SiftDownList<T(!new)>(ghost s: seq<Node<T>>, nodes: array<Node<T>>, ghost w: seq<T>,
                               root: int, m: int, less: (T, T) -> bool, ghost b: int)
    returns (ghost w': seq<T>)
    requires Distinct(s) && Stores(s, w) && 0 <= b && b + nodes.Length <= |s|
    requires forall k :: 0 <= k < nodes.Length ==> nodes[k] == s[b + k]
    requires 0 <= root && 0 <= m <= nodes.Length
    modifies s`obj
    ensures Stores(s, w') && Perm(w, w', b, b + m)
    ensures StrictWeakOrder(less) && Heap(w, b, root + 1, m, less) ==> Heap(w', b, root, m, less)
  {
    var r := root;
    w' := w;
    PermRefl(w, b, b + m);
    if StrictWeakOrder(less) && Heap(w, b, root + 1, m, less) {
      SiftingStart(w, b, root, m, less);
    }
    while true
      invariant Stores(s, w') && Perm(w, w', b, b + m)
      invariant root <= r && (root < r ==> r < m)
      invariant StrictWeakOrder(less) && Heap(w, b, root + 1, m, less) ==> Sifting(w', b, root, m, r, less)
      decreases m - r
    {
      var done;
      r, done, w' := SiftStep(s, nodes, w, w', root, r, m, less, b);
      if done {
        break;
      }
    }
  }

  /** The first loop of heapSortList: collects the nodes of the segment into
      an array, in order. */
  method CollectNodes<T>(ghost s: seq<Node<T>>, lo: Node<T>, n: int, ghost b: int)
    returns (nodes: array<Node<T>>)
    requires Chain(s) && 0 <= b && 1 <= n && b + n <= |s| && lo == s[b]
    ensures fresh(nodes) && nodes.Length == n
    ensures forall k :: 0 <= k < n ==> nodes[k] == s[b + k]
  {
    nodes := new Node<T>[n](_ => lo);
    var cur: Node?<T> := lo;
    var i := 0;
    while i < n
      invariant 0 <= i <= n && cur == NodeAt(s, b + i)
      invariant forall k :: 0 <= k < i ==> nodes[k] == s[b + k]
    {
      nodes[i] := cur;
      ChainStep(s, b + i);
      cur := cur.next;
      i := i + 1;
    }
  }

  /** The second loop of heapSortList: sifts down every inner node, from the
      last one back to the top, which makes the whole array a heap. */
  method BuildHeap<T(!new)>(ghost s: seq<Node<T>>, nodes: array<Node<T>>, ghost v: seq<T>,
                            n: int, less: (T, T) -> bool, ghost b: int)
    returns (ghost w: seq<T>)
    requires Distinct(s) && Stores(s, v) && 0 <= b && 1 <= n && nodes.Length == n && b + n <= |s|
    requires forall k :: 0 <= k < nodes.Length ==> nodes[k] == s[b + k]
    modifies s`obj
    ensures Stores(s, w) && Perm(v, w, b, b + n)
    ensures StrictWeakOrder(less) ==> Heap(w, b, 0, n, less)
  {
    var i := (n - 1) / 2;
    w := v;
    forall k | i + 1 <= k < n
      ensures HeapAt(v, b, n, k, less)
    {
      assert 2 * k + 1 >= n;
    }
    while i >= 0
      invariant -1 <= i <= (n - 1) / 2
      invariant Stores(s, w) && Perm(v, w, b, b + n)
      invariant StrictWeakOrder(less) ==> Heap(w, b, i + 1, n, less)
    {
      ghost var u := w;
      w := SiftDownList(s, nodes, w, i, n, less, b);
      PermTrans(v, u, w, b, b + n);
      i := i - 1;
    }
  }

  /** One round of the third loop: the top goes to position `i`, then the
      payload brought to the top is sifted down within `[0, i)`. */
  method ExtractStep<T(!new)>(ghost s: seq<Node<T>>, nodes: array<Node<T>>, ghost v: seq<T>, ghost w: seq<T>,
                              i: int, n: int, less: (T, T) -> bool, ghost b: int)
    returns (ghost w': seq<T>)
    requires Distinct(s) && Stores(s, w) && 0 <= b && 0 <= i < n && nodes.Length == n && b + n <= |s|
    requires forall k :: 0 <= k < nodes.Length ==> nodes[k] == s[b + k]
    requires Perm(v, w, b, b + n)
    requires StrictWeakOrder(less) ==>
      Heap(w, b, 0, i + 1, less) && Sorted(w, b + i + 1, b + n, less) && Below(w, b, b + i + 1, b + i + 1, b + n, less)
    modifies s`obj
    ensures Stores(s, w') && Perm(v, w', b, b + n)
    ensures StrictWeakOrder(less) ==>
      Heap(w', b, 0, i, less) && Sorted(w', b + i, b + n, less) && Below(w', b, b + i, b + i, b + n, less)
  {
    SwapObjs(s, w, nodes[0], nodes[i], b, b + i);
    ghost var w1 := Swapped(w, b, b + i);
    if StrictWeakOrder(less) {
      ExtractSwap(w, b, i, n, less);
    }
    PermThenSwap(v, w, b, b + i, b, b + n);
    w' := SiftDownList(s, nodes, w1, 0, i, less, b);
    if StrictWeakOrder(less) {
      TailKept(w1, w', b, i, n, less);
    }
    PermWiden(w1, w', b, b + i, b, b + n);
    PermTrans(v, w1, w', b, b + n);
  }

  /** The third loop of heapSortList. */
  method ExtractAll<T(!new)>(ghost s: seq<Node<T>>, nodes: array<Node<T>>, ghost v: seq<T>,
                             n: int, less: (T, T) -> bool, ghost b: int)
    returns (ghost w: seq<T>)
    requires Distinct(s) && Stores(s, v) && 0 <= b && 1 <= n && nodes.Length == n && b + n <= |s|
    requires forall k :: 0 <= k < nodes.Length ==> nodes[k] == s[b + k]
    requires StrictWeakOrder(less) ==> Heap(v, b, 0, n, less)
    modifies s`obj
    ensures Stores(s, w) && Perm(v, w, b, b + n)
    ensures StrictWeakOrder(less) ==> Sorted(w, b, b + n, less)
  {
    var i := n - 1;
    w := v;
    PermRefl(v, b, b + n);
    while i >= 0
      invariant -1 <= i <= n - 1
      invariant Stores(s, w) && Perm(v, w, b, b + n)
      invariant StrictWeakOrder(less) ==>
        Heap(w, b, 0, i + 1, less) && Sorted(w, b + i + 1, b + n, less) && Below(w, b, b + i + 1, b + i + 1, b + n, less)
    {
      w := ExtractStep(s, nodes, v, w, i, n, less, b);
      i := i - 1;
    }
  }

  /** heapSortList: sorts the `n` payloads from `lo` on, the nodes staying
      where they are. */
  method HeapSortList<T(!new)>(ghost s: seq<Node<T>>, ghost v: seq<T>, lo: Node<T>, n: int,
                               less: (T, T) -> bool, ghost b: int)
    returns (ghost r: seq<T>)
    requires Chain(s) && Stores(s, v) && 0 <= b && 1 <= n && b + n <= |s| && lo == s[b]
    modifies s`obj
    ensures Stores(s, r) && Perm(v, r, b, b + n)
    ensures StrictWeakOrder(less) ==> Sorted(r, b, b + n, less)
  {
    var nodes := CollectNodes(s, lo, n, b);
    ghost var w := BuildHeap(s, nodes, v, n, less, b);
    r := ExtractAll(s, nodes, w, n, less, b);
    PermTrans(v, w, r, b, b + n);
  }
}
