/** The partitioning kernel of the list PDQSort (sort-pdq.go): the Hoare
    partition and the equal-keys partition. A segment is the `n` nodes
    `s[b..b+n]` of the chain `s`; the node variables `lo`, `hi`, `i` and `j` of the
    source travel together with their offsets from `lo`, and each of them is
    tied to its position in `s` by an invariant.

    The two partitions run the same pair of scans and exchanges and differ
    only in the test that sends an element to the left part: partitionList
    keeps on the left what precedes the pivot (`less(x, pivot)`),
    partitionEqualList what the pivot does not precede (`!less(pivot, x)`).
    The flag `eq` selects the second. */
module PdqPartition {
  import opened Nodes
  import opened Ordering
  import opened PdqPrimitives

  /** The left-part test of the two partitions. */
  function Left<T>(x: T, p: T, less: (T, T) -> bool, eq: bool): bool {
    if eq then !less(p, x) else less(x, p)
  }

  /** After the pivot moved to the front, the rest of the segment already
      consists of the elements that precede the pivot followed by those that
      do not: no element that precedes `p` stands after one that does not. */
  ghost predicate SplitAround<T>(a: seq<T>, x: int, y: int, p: T, less: (T, T) -> bool)
    requires 0 <= x <= y <= |a|
  {
    forall u, w :: x <= u < w < y && less(a[w], p) ==> less(a[u], p)
  }

  /** The state of the scans over `a[b..b+n]` with the pivot `p` at `b`: the
      offsets `[1, iOff)` hold elements of the left part, the offsets
      `(jOff, n)` elements of the right part. */
  ghost predicate Scanned<T>(a: seq<T>, b: int, n: int, iOff: int, jOff: int, p: T, less: (T, T) -> bool, eq: bool) {
    0 <= b && b + n <= |a| && 1 <= iOff <= jOff + 1 && 0 <= jOff <= n - 1 && a[b] == p &&
    (forall k :: b + 1 <= k < b + iOff ==> Left(a[k], p, less, eq)) &&
    (forall k :: b + jOff < k < b + n ==> !Left(a[k], p, less, eq))
  }

  /** When the first scans of partitionList meet, the segment after the
      pivot's move was already split around the pivot. */
  lemma ScannedIsSplit<T>(a: seq<T>, b: int, n: int, iOff: int, jOff: int, p: T, less: (T, T) -> bool)
    requires Scanned(a, b, n, iOff, jOff, p, less, false) && iOff == jOff + 1
    ensures SplitAround(a, b + 1, b + n, p, less)
  {
  }

  /** A pair out of order is a witness against `SplitAround`. */
  lemma NotSplit<T>(a: seq<T>, x: int, y: int, p: T, less: (T, T) -> bool, u: int, w: int)
    requires 0 <= x <= u < w < y <= |a| && !less(a[u], p) && less(a[w], p)
    ensures !SplitAround(a, x, y, p, less)
  {
  }

  /** Placing the pivot at `jOff` once the scans of partitionList have met
      partitions the segment: `c` is the segment after that exchange. */
  lemma PlacePivot<T>(a: seq<T>, c: seq<T>, b: int, n: int, iOff: int, jOff: int, p: T, less: (T, T) -> bool)
    requires Scanned(a, b, n, iOff, jOff, p, less, false) && iOff == jOff + 1
    requires jOff > 0 ==> less(a[b + jOff], p)
    requires c == Swapped(a, b + jOff, b)
    ensures c[b + jOff] == p
    ensures forall k :: b <= k < b + jOff ==> less(c[k], p)
    ensures forall k :: b + jOff < k < b + n ==> !less(c[k], p)
  {
  }

  /** Exchanging the two elements the scans stopped at extends both scanned
      parts by one. */
  lemma SwapStep<T>(a: seq<T>, c: seq<T>, b: int, n: int, iOff: int, jOff: int, p: T, less: (T, T) -> bool, eq: bool)
    requires Scanned(a, b, n, iOff, jOff, p, less, eq) && iOff <= jOff
    requires !Left(a[b + iOff], p, less, eq) && Left(a[b + jOff], p, less, eq)
    requires c == Swapped(a, b + iOff, b + jOff)
    ensures Scanned(c, b, n, iOff + 1, jOff - 1, p, less, eq)
  {
  }

  /** The forward scan: moves `i` over elements of the left part, never past
      `j`. */
  method ScanLeft<T>(ghost s: seq<Node<T>>, ghost v: seq<T>, i: Node?<T>, iOff: int, jOff: int,
                     pivotNode: Node<T>, less: (T, T) -> bool, eq: bool, ghost b: int, ghost n: int, ghost p: T)
    returns (i': Node?<T>, iOff': int)
    requires Chain(s) && Stores(s, v) && 0 <= b && 1 <= n && b + n <= |s| && pivotNode == s[b]
    requires Scanned(v, b, n, iOff, jOff, p, less, eq) && i == NodeAt(s, b + iOff)
    ensures iOff <= iOff' && Scanned(v, b, n, iOff', jOff, p, less, eq)
    ensures i' == NodeAt(s, b + iOff')
    ensures iOff' <= jOff ==> !Left(v[b + iOff'], p, less, eq)
  {
    i', iOff' := i, iOff;
    while iOff' <= jOff && Left(i'.obj, pivotNode.obj, less, eq)
      invariant iOff <= iOff' && Scanned(v, b, n, iOff', jOff, p, less, eq)
      invariant i' == NodeAt(s, b + iOff')
    {
      assert i'.obj == v[b + iOff'];
      ChainStep(s, b + iOff');
      i' := i'.next;
      iOff' := iOff' + 1;
    }
    assert pivotNode.obj == v[b];
    assert iOff' <= jOff ==> i'.obj == v[b + iOff'];
  }

  /** The backward scan: moves `j` over elements of the right part, stopping
      at the pivot's own offset 0. Because the elements before `iOff` belong
      on the left, `j` never passes `iOff - 1`. */
  method ScanRight<T>(ghost s: seq<Node<T>>, ghost v: seq<T>, j: Node<T>, jOff: int, iOff: int,
                      pivotNode: Node<T>, less: (T, T) -> bool, eq: bool, ghost b: int, ghost n: int, ghost p: T)
    returns (j': Node<T>, jOff': int)
    requires Chain(s) && Stores(s, v) && 0 <= b && 1 <= n && b + n <= |s| && pivotNode == s[b]
    requires Scanned(v, b, n, iOff, jOff, p, less, eq) && j == s[b + jOff]
    ensures jOff' <= jOff && Scanned(v, b, n, iOff, jOff', p, less, eq)
    ensures j' == s[b + jOff']
    ensures jOff' > 0 ==> Left(v[b + jOff'], p, less, eq)
  {
    j', jOff' := j, jOff;
    while jOff' > 0 && !Left(j'.obj, pivotNode.obj, less, eq)
      invariant jOff' <= jOff && Scanned(v, b, n, iOff, jOff', p, less, eq)
      invariant j' == s[b + jOff']
    {
      assert j'.obj == v[b + jOff'];
      ChainStep(s, b + jOff');
      j' := j'.prev;
      jOff' := jOff' - 1;
    }
    assert pivotNode.obj == v[b];
    assert j'.obj == v[b + jOff'];
  }

  /** One exchange: swaps the stray elements at `i` and `j` and steps both
      cursors inwards. The source guards the backward step with jOff > 0,
      which always holds here since the scans stopped with 1 <= iOff <= jOff
      (and i != j). `u` is the segment before the first exchange. */
  method SwapInward<T>(ghost s: seq<Node<T>>, ghost u: seq<T>, ghost w: seq<T>, i: Node<T>, iOff: int, j: Node<T>, jOff: int,
                       less: (T, T) -> bool, eq: bool, ghost b: int, ghost n: int, ghost p: T)
    returns (i': Node?<T>, iOff': int, j': Node<T>, jOff': int, ghost w': seq<T>)
    requires Chain(s) && Stores(s, w) && 0 <= b && 1 <= n && b + n <= |s|
    requires Scanned(w, b, n, iOff, jOff, p, less, eq) && iOff <= jOff
    requires !Left(w[b + iOff], p, less, eq) && Left(w[b + jOff], p, less, eq)
    requires i == s[b + iOff] && j == s[b + jOff] && Perm(u, w, b, b + n)
    modifies s`obj
    ensures Stores(s, w') && Perm(u, w', b, b + n) && w' == Swapped(w, b + iOff, b + jOff)
    ensures iOff' == iOff + 1 && jOff' == jOff - 1
    ensures Scanned(w', b, n, iOff', jOff', p, less, eq)
    ensures i' == NodeAt(s, b + iOff') && j' == s[b + jOff']
  {
    SwapObjs(s, w, i, j, b + iOff, b + jOff);
    w' := Swapped(w, b + iOff, b + jOff);
    SwapStep(w, w', b, n, iOff, jOff, p, less, eq);
    PermThenSwap(u, w, b + iOff, b + jOff, b, b + n);
    ChainStep(s, b + iOff);
    ChainStep(s, b + jOff);
    i', iOff' := i.next, iOff + 1;
    j', jOff' := j.prev, jOff - 1;
  }

  /** The main loop of both partitions, entered after a first pair of scans:
      swaps the two stray elements the scans stopped at and scans again,
      until the scans meet. Returns where `i` and `j` stopped and the payloads
      `w'` afterwards. */
  method ExchangeLoop<T>(ghost s: seq<Node<T>>, ghost w: seq<T>, i: Node?<T>, iOff: int, j: Node<T>, jOff: int,
                         pivotNode: Node<T>, less: (T, T) -> bool, eq: bool, ghost b: int, ghost n: int, ghost p: T)
    returns (i': Node?<T>, iOff': int, j': Node<T>, jOff': int, ghost w': seq<T>)
    requires Chain(s) && Stores(s, w) && 0 <= b && 1 <= n && b + n <= |s| && pivotNode == s[b]
    requires Scanned(w, b, n, iOff, jOff, p, less, eq)
    requires iOff <= jOff ==> !Left(w[b + iOff], p, less, eq) && Left(w[b + jOff], p, less, eq)
    requires i == NodeAt(s, b + iOff) && j == s[b + jOff]
    modifies s`obj
    ensures Stores(s, w') && Perm(w, w', b, b + n)
    ensures iOff' == jOff' + 1 && Scanned(w', b, n, iOff', jOff', p, less, eq)
    ensures jOff' > 0 ==> Left(w'[b + jOff'], p, less, eq)
    ensures i' == NodeAt(s, b + iOff') && j' == s[b + jOff']
  {
    i', iOff' := i, iOff;
    j', jOff', w' := j, jOff, w;
    PermRefl(w, b, b + n);
    while iOff' <= jOff'
      invariant Stores(s, w') && Perm(w, w', b, b + n)
      invariant Scanned(w', b, n, iOff', jOff', p, less, eq)
      invariant iOff' <= jOff' ==> !Left(w'[b + iOff'], p, less, eq) && Left(w'[b + jOff'], p, less, eq)
      invariant iOff' > jOff' ==> jOff' > 0 ==> Left(w'[b + jOff'], p, less, eq)
      invariant i' == NodeAt(s, b + iOff') && j' == s[b + jOff']
      decreases jOff' - iOff' + 1
    {
      i', iOff', j', jOff', w' := SwapInward(s, w, w', i', iOff', j', jOff', less, eq, b, n, p);
      i', iOff' := ScanLeft(s, w', i', iOff', jOff', pivotNode, less, eq, b, n, p);
      j', jOff' := ScanRight(s, w', j', jOff', iOff', pivotNode, less, eq, b, n, p);
    }
  }

  /** Moves the pivot at offset `pivotOffset` to the front of the segment. */
  method PivotToFront<T>(ghost s: seq<Node<T>>, ghost v: seq<T>, lo: Node<T>, pivotOffset: int, ghost b: int, ghost n: int)
    returns (ghost a0: seq<T>)
    requires Chain(s) && Stores(s, v) && 0 <= b && b + n <= |s| && 0 <= pivotOffset < n
    requires lo == s[b]
    modifies s`obj
    ensures Stores(s, a0) && a0 == Swapped(v, b, b + pivotOffset) && Perm(v, a0, b, b + n)
  {
    var pivotNode := AdvanceT(s, lo, b, pivotOffset);
    SwapObjs(s, v, lo, pivotNode, b, b + pivotOffset);
    a0 := Swapped(v, b, b + pivotOffset);
    PermSwap(v, b, b + pivotOffset, b, b + n);
  }

  /** Moves the pivot from the front to where the scans of partitionList met,
      `jOff`. */
  method PlacePivotNode<T>(ghost s: seq<Node<T>>, ghost w: seq<T>, j: Node<T>, jOff: int, pivotNode: Node<T>,
                           less: (T, T) -> bool, ghost b: int, ghost n: int, ghost p: T)
    returns (ghost r: seq<T>)
    requires Chain(s) && Stores(s, w) && Scanned(w, b, n, jOff + 1, jOff, p, less, false)
    requires pivotNode == s[b] && j == s[b + jOff]
    requires jOff > 0 ==> less(w[b + jOff], p)
    modifies s`obj
    ensures Stores(s, r) && r == Swapped(w, b + jOff, b) && Perm(w, r, b, b + n) && r[b + jOff] == p
    ensures forall k :: b <= k < b + jOff ==> less(r[k], r[b + jOff])
    ensures forall k :: b + jOff < k < b + n ==> !less(r[k], r[b + jOff])
  {
    SwapObjs(s, w, j, pivotNode, b + jOff, b);
    r := Swapped(w, b + jOff, b);
    PlacePivot(w, r, b, n, jOff + 1, jOff, p, less);
    PermSwap(w, b + jOff, b, b, b + n);
  }

  /** The exchange loop of partitionList and the pivot's final move, once the
      first scans have stopped at a pair out of place. */
  method PartitionRest<T>(ghost s: seq<Node<T>>, ghost a: seq<T>, i: Node?<T>, iOff: int, j: Node<T>, jOff: int,
                          pivotNode: Node<T>, less: (T, T) -> bool, ghost b: int, ghost n: int, ghost p: T)
    returns (mid: Node<T>, midOffset: int, ghost r: seq<T>)
    requires Chain(s) && Stores(s, a) && 0 <= b && 1 <= n && b + n <= |s| && pivotNode == s[b]
    requires Scanned(a, b, n, iOff, jOff, p, less, false)
    requires iOff <= jOff ==> !less(a[b + iOff], p) && less(a[b + jOff], p)
    requires i == NodeAt(s, b + iOff) && j == s[b + jOff]
    modifies s`obj
    ensures Stores(s, r) && Perm(a, r, b, b + n)
    ensures 0 <= midOffset < n && mid == s[b + midOffset] && r[b + midOffset] == p
    ensures forall k :: b <= k < b + midOffset ==> less(r[k], r[b + midOffset])
    ensures forall k :: b + midOffset < k < b + n ==> !less(r[k], r[b + midOffset])
  {
    ghost var w;
    var i', iOff';
    i', iOff', mid, midOffset, w := ExchangeLoop(s, a, i, iOff, j, jOff, pivotNode, less, false, b, n, p);
    r := PlacePivotNode(s, w, mid, midOffset, pivotNode, less, b, n, p);
    PermTrans(a, w, r, b, b + n);
  }

  /** partitionList after the pivot's move to the front: `a` is the segment's
      payloads with the pivot `p` at offset 0. */
  method PartitionFromFront<T>(ghost s: seq<Node<T>>, ghost a: seq<T>, lo: Node<T>, hi: Node<T>, n: int,
                               less: (T, T) -> bool, ghost b: int, ghost p: T)
    returns (mid: Node<T>, midOffset: int, alreadyPartitioned: bool, ghost r: seq<T>)
    requires Chain(s) && Stores(s, a) && 0 <= b && 1 <= n && b + n <= |s|
    requires lo == s[b] && hi == s[b + n - 1] && a[b] == p
    modifies s`obj
    ensures Stores(s, r) && Perm(a, r, b, b + n)
    ensures 0 <= midOffset < n && mid == s[b + midOffset] && r[b + midOffset] == p
    ensures forall k :: b <= k < b + midOffset ==> less(r[k], r[b + midOffset])
    ensures forall k :: b + midOffset < k < b + n ==> !less(r[k], r[b + midOffset])
    ensures alreadyPartitioned <==> SplitAround(a, b + 1, b + n, p, less)
    ensures alreadyPartitioned ==> r == Swapped(a, b + midOffset, b)
  {
    ChainStep(s, b);
    var i, iOff := ScanLeft(s, a, lo.next, 1, n - 1, lo, less, false, b, n, p);
    var j, jOff := ScanRight(s, a, hi, n - 1, iOff, lo, less, false, b, n, p);

    if iOff > jOff {
      // Already partitioned: place the pivot at j.
      ScannedIsSplit(a, b, n, iOff, jOff, p, less);
      r := PlacePivotNode(s, a, j, jOff, lo, less, b, n, p);
      return j, jOff, true, r;
    }

    // An element that does not precede the pivot stands before one that does.
    NotSplit(a, b + 1, b + n, p, less, b + iOff, b + jOff);
    mid, midOffset, r := PartitionRest(s, a, i, iOff, j, jOff, lo, less, b, n, p);
    alreadyPartitioned := false;
  }

  /** partitionList: Hoare partition of the segment `s[b..b+n]`, whose
      payloads are `v`, around the element at offset `pivotOffset`; `r` is the
      payloads afterwards. The pivot ends at offset `midOffset`, everything
      before it precedes it and nothing after it does. The flag reports the
      early exit: it is true exactly when the segment, once the pivot was moved
      to the front, was already split around it, and then the only exchanges
      made are the two that move the pivot. */
  method PartitionList<T>(ghost s: seq<Node<T>>, ghost v: seq<T>, lo: Node<T>, hi: Node<T>, n: int,
                          pivotOffset: int, less: (T, T) -> bool, ghost b: int)
    returns (mid: Node<T>, midOffset: int, alreadyPartitioned: bool, ghost r: seq<T>)
    requires Chain(s) && Stores(s, v) && 0 <= b && 1 <= n && b + n <= |s|
    requires lo == s[b] && hi == s[b + n - 1] && 0 <= pivotOffset < n
    modifies s`obj
    ensures Stores(s, r) && Perm(v, r, b, b + n)
    ensures 0 <= midOffset < n && mid == s[b + midOffset]
    ensures r[b + midOffset] == v[b + pivotOffset]
    ensures forall k :: b <= k < b + midOffset ==> less(r[k], r[b + midOffset])
    ensures forall k :: b + midOffset < k < b + n ==> !less(r[k], r[b + midOffset])
    ensures alreadyPartitioned <==>
              SplitAround(Swapped(v, b, b + pivotOffset), b + 1, b + n, v[b + pivotOffset], less)
    ensures alreadyPartitioned ==> r == Swapped(Swapped(v, b, b + pivotOffset), b + midOffset, b)
  {
    ghost var a := PivotToFront(s, v, lo, pivotOffset, b, n);
    mid, midOffset, alreadyPartitioned, r := PartitionFromFront(s, a, lo, hi, n, less, b, v[b + pivotOffset]);
    PermTrans(v, a, r, b, b + n);
  }

  /** partitionEqualList after the pivot's move to the front: scans and
      exchanges until the elements the pivot does not precede stand first. */
  method EqualFromFront<T>(ghost s: seq<Node<T>>, ghost a: seq<T>, lo: Node<T>, hi: Node<T>, n: int,
                           less: (T, T) -> bool, ghost b: int, ghost p: T)
    returns (i: Node?<T>, iOff: int, ghost r: seq<T>)
    requires Chain(s) && Stores(s, a) && 0 <= b && 1 <= n && b + n <= |s|
    requires lo == s[b] && hi == s[b + n - 1] && a[b] == p
    modifies s`obj
    ensures Stores(s, r) && Perm(a, r, b, b + n)
    ensures 1 <= iOff <= n && i == NodeAt(s, b + iOff) && r[b] == p
    ensures forall k :: b + 1 <= k < b + iOff ==> !less(p, r[k])
    ensures forall k :: b + iOff <= k < b + n ==> less(p, r[k])
  {
    ChainStep(s, b);
    var i0, iOff0 := ScanLeft(s, a, lo.next, 1, n - 1, lo, less, true, b, n, p);
    var j, jOff := ScanRight(s, a, hi, n - 1, iOff0, lo, less, true, b, n, p);
    var j', jOff';
    i, iOff, j', jOff', r := ExchangeLoop(s, a, i0, iOff0, j, jOff, lo, less, true, b, n, p);
  }

  /** partitionEqualList: moves the pivot at `pivotOffset` to the front and
      gathers after it the elements the pivot does not precede (its equals,
      under a strict weak ordering). It returns the first node that the pivot
      precedes and the number `rest` of such nodes, which end the segment; a
      segment without any yields null and 0. */
  method PartitionEqualList<T>(ghost s: seq<Node<T>>, ghost v: seq<T>, lo: Node<T>, hi: Node<T>, n: int,
                               pivotOffset: int, less: (T, T) -> bool, ghost b: int)
    returns (node: Node?<T>, rest: int, ghost r: seq<T>)
    requires Chain(s) && Stores(s, v) && 0 <= b && 1 <= n && b + n <= |s|
    requires lo == s[b] && hi == s[b + n - 1] && 0 <= pivotOffset < n
    modifies s`obj
    ensures Stores(s, r) && Perm(v, r, b, b + n)
    ensures 0 <= rest < n && r[b] == v[b + pivotOffset]
    ensures rest == 0 <==> node == null
    ensures rest > 0 ==> node == s[b + n - rest]
    ensures forall k :: b < k < b + n - rest ==> !less(r[b], r[k])
    ensures forall k :: b + n - rest <= k < b + n ==> less(r[b], r[k])
  {
    ghost var a := PivotToFront(s, v, lo, pivotOffset, b, n);
    var i, iOff;
    i, iOff, r := EqualFromFront(s, a, lo, hi, n, less, b, v[b + pivotOffset]);
    PermTrans(v, a, r, b, b + n);
    if iOff > n - 1 {
      return null, 0, r;
    }
    node, rest := i, n - iOff;
  }
}
