/** partialInsertionSortList of the list PDQSort (sort-pdq.go): the attempt
    to finish an almost sorted segment with at most five local repairs. Each
    repair exchanges an out-of-order pair, moves the smaller payload left
    and the bigger one right as far as they must go; segments shorter than
    50 are never repaired, only checked. */
module PdqPartial {
  import opened Nodes
  import opened Ordering
  import opened PdqPrimitives

  /** The node at offset `k` of the segment is neither null nor the node
      just past it, unless `k` is the segment's length. */
  lemma AtStop<T>(s: seq<Node<T>>, b: int, n: int, k: int)
    requires Distinct(s) && 0 <= b && 0 <= k <= n && b + n <= |s|
    ensures (NodeAt(s, b + k) == null || NodeAt(s, b + k) == NodeAt(s, b + n)) <==> k == n
  {
    if k < n && b + n < |s| {
      DistinctAt(s, b + k, b + n);
    }
  }

  /** The first loop of partialInsertionSortList: counts the nodes from `lo`
      up to and including `hi`. */
  method CountSegment<T>(ghost s: seq<Node<T>>, lo: Node<T>, hi: Node<T>, ghost b: int, ghost n: int)
    returns (count: int)
    requires Chain(s) && 0 <= b && 1 <= n && b + n <= |s| && lo == s[b] && hi == s[b + n - 1]
    ensures count == n
  {
    ChainStep(s, b + n - 1);
    var stop := hi.next;
    count := 0;
    var c: Node?<T> := lo;
    AtStop(s, b, n, 0);
    while c != stop
      invariant 0 <= count <= n && c == NodeAt(s, b + count)
      invariant c == stop <==> count == n
      decreases n - count
    {
      ChainStep(s, b + count);
      c := c.next;
      count := count + 1;
      AtStop(s, b, n, count);
    }
  }

  /** The scanning loop: walks from offset `iOff` while each payload may
      stand after its predecessor, up to the end of the segment. */
  method ScanSorted<T>(ghost s: seq<Node<T>>, ghost w: seq<T>, i: Node?<T>, ghost iOff: int, stop: Node?<T>,
                       less: (T, T) -> bool, ghost b: int, ghost n: int)
    returns (i': Node?<T>, ghost iOff': int)
    requires Chain(s) && Stores(s, w) && 0 <= b && 1 <= n && b + n <= |s| && stop == NodeAt(s, b + n)
    requires 1 <= iOff <= n && i == NodeAt(s, b + iOff)
    ensures iOff <= iOff' <= n && i' == NodeAt(s, b + iOff')
    ensures AdjSorted(w, b + iOff - 1, b + iOff', less)
    ensures iOff' < n ==> less(w[b + iOff'], w[b + iOff' - 1])
    ensures (i' == null || i' == stop) <==> iOff' == n
  {
    i', iOff' := i, iOff;
    AtStop(s, b, n, iOff');
    while i' != null && i' != stop && !less(i'.obj, i'.prev.obj)
      invariant iOff <= iOff' <= n && i' == NodeAt(s, b + iOff')
      invariant AdjSorted(w, b + iOff - 1, b + iOff', less)
      invariant (i' == null || i' == stop) <==> iOff' == n
      decreases n - iOff'
    {
      ChainStep(s, b + iOff');
      i' := i'.next;
      iOff' := iOff' + 1;
      AtStop(s, b, n, iOff');
    }
    if iOff' < n {
      ChainStep(s, b + iOff');
    }
  }

  /** Two adjacent-ordered stretches overlapping in one position join. */
  lemma AdjSortedJoin<T>(w: seq<T>, x: int, y: int, z: int, less: (T, T) -> bool)
    requires 0 <= x < y <= z <= |w| && AdjSorted(w, x, y, less) && AdjSorted(w, y - 1, z, less)
    ensures AdjSorted(w, x, z, less)
  {
  }

  /** The state of the shift-left loop with the moving payload at offset
      `j`: every adjacent pair of `[0, iOff)` is in order except the one
      ending at `j`, and the payloads on either side of `j` are in order. */
  ghost predicate ShiftState<T>(w: seq<T>, b: int, iOff: int, j: int, less: (T, T) -> bool)
    requires 0 <= b && 0 <= j < iOff && b + iOff <= |w|
  {
    (forall k :: b < k < b + iOff && k != b + j ==> !less(w[k], w[k - 1])) &&
    (0 < j && j + 1 < iOff ==> !less(w[b + j + 1], w[b + j - 1]))
  }

  /** Exchanging the out-of-order pair found by the scan leaves the smaller
      payload at `iOff - 1` and the prefix otherwise in order. */
  lemma ShiftStart<T>(w: seq<T>, b: int, iOff: int, less: (T, T) -> bool)
    requires 0 <= b && 1 <= iOff && b + iOff < |w| && AdjSorted(w, b, b + iOff, less)
    ensures ShiftState(Swapped(w, b + iOff - 1, b + iOff), b, iOff, iOff - 1, less)
  {
  }

  /** Moving the payload one place left keeps the state. */
  lemma ShiftStep<T(!new)>(w: seq<T>, b: int, iOff: int, j: int, less: (T, T) -> bool)
    requires StrictWeakOrder(less)
    requires 0 <= b && 0 < j < iOff && b + iOff <= |w| && ShiftState(w, b, iOff, j, less)
    requires less(w[b + j], w[b + j - 1])
    ensures ShiftState(Swapped(w, b + j, b + j - 1), b, iOff, j - 1, less)
  {
    var w' := Swapped(w, b + j, b + j - 1);
    forall k | b < k < b + iOff && k != b + j - 1
      ensures !less(w'[k], w'[k - 1])
    {
      if k == b + j + 1 {
        assert w'[k - 1] == w[b + j - 1];
      } else if k == b + j {
        assert w'[k] == w[b + j - 1] && w'[k - 1] == w[b + j];
      }
    }
    if 0 < j - 1 {
      assert !less(w[b + j - 1], w[b + j - 2]);
    }
  }

  /** When the payload stops, at the front or after a payload it need not
      precede, the whole prefix is in order. */
  lemma ShiftDone<T>(w: seq<T>, b: int, iOff: int, j: int, less: (T, T) -> bool)
    requires 0 <= b && 0 <= j < iOff && b + iOff <= |w| && ShiftState(w, b, iOff, j, less)
    requires j > 0 ==> !less(w[b + j], w[b + j - 1])
    ensures AdjSorted(w, b, b + iOff, less)
  {
  }

  /** The exchange of the payload at `j` with its predecessor's. */
  method ExchangeWithPrev<T(!new)>(ghost s: seq<Node<T>>, ghost w0: seq<T>, ghost w: seq<T>, j: Node<T>, ghost jOff: int,
                                   less: (T, T) -> bool, ghost b: int, ghost iOff: int)
    returns (ghost w': seq<T>)
    requires Chain(s) && Stores(s, w) && 0 <= b && b + iOff <= |s| && Perm(w0, w, b, b + iOff)
    requires 0 < jOff < iOff && j == s[b + jOff]
    requires StrictWeakOrder(less) ==> ShiftState(w, b, iOff, jOff, less)
    requires less(w[b + jOff], w[b + jOff - 1])
    modifies s`obj
    ensures Stores(s, w') && Perm(w0, w', b, b + iOff)
    ensures StrictWeakOrder(less) ==> ShiftState(w', b, iOff, jOff - 1, less)
  {
    ChainStep(s, b + jOff);
    SwapObjs(s, w, j, j.prev, b + jOff, b + jOff - 1);
    PermThenSwap(w0, w, b + jOff, b + jOff - 1, b, b + iOff);
    if StrictWeakOrder(less) {
      ShiftStep(w, b, iOff, jOff, less);
    }
    w' := Swapped(w, b + jOff, b + jOff - 1);
  }

  /** The step of the cursor back, `j = j.prev`. */
  method StepBack<T>(ghost s: seq<Node<T>>, j: Node<T>, ghost b: int, ghost jOff: int)
    returns (j': Node<T>, ghost jOff': int)
    requires Chain(s) && 0 <= b && 0 < jOff && b + jOff < |s| && j == s[b + jOff]
    ensures jOff' == jOff - 1 && j' == s[b + jOff']
  {
    ChainStep(s, b + jOff);
    j', jOff' := j.prev, jOff - 1;
  }

  /** One exchange of the shift-left loop. */
  method ShiftLeftStep<T(!new)>(ghost s: seq<Node<T>>, ghost w0: seq<T>, ghost w: seq<T>, j: Node<T>, ghost jOff: int,
                                less: (T, T) -> bool, ghost b: int, ghost iOff: int)
    returns (j': Node<T>, ghost w': seq<T>, ghost jOff': int)
    requires Chain(s) && Stores(s, w) && 0 <= b && b + iOff <= |s| && Perm(w0, w, b, b + iOff)
    requires 0 < jOff < iOff && j == s[b + jOff]
    requires StrictWeakOrder(less) ==> ShiftState(w, b, iOff, jOff, less)
    requires less(w[b + jOff], w[b + jOff - 1])
    modifies s`obj
    ensures Stores(s, w') && Perm(w0, w', b, b + iOff)
    ensures jOff' == jOff - 1 && 0 <= jOff' < iOff && j' == s[b + jOff']
    ensures StrictWeakOrder(less) ==> ShiftState(w', b, iOff, jOff', less)
  {
    w' := ExchangeWithPrev(s, w0, w, j, jOff, less, b, iOff);
    j', jOff' := StepBack(s, j, b, jOff);
  }

  /** The shift-left loop: exchanges the payload at `j` with its predecessor
      while it must precede it, never past `lo`. */
  method ShiftLeft<T(!new)>(ghost s: seq<Node<T>>, ghost w: seq<T>, lo: Node<T>, j: Node<T>, ghost jOff: int,
                            less: (T, T) -> bool, ghost b: int, ghost iOff: int)
    returns (ghost w': seq<T>)
    requires Chain(s) && Stores(s, w) && 0 <= jOff < iOff && 0 <= b && b + iOff <= |s|
    requires lo == s[b] && j == s[b + jOff]
    requires StrictWeakOrder(less) ==> ShiftState(w, b, iOff, jOff, less)
    modifies s`obj
    ensures Stores(s, w') && Perm(w, w', b, b + iOff)
    ensures StrictWeakOrder(less) ==> AdjSorted(w', b, b + iOff, less)
  {
    var jj := j;
    ghost var jo := jOff;
    w' := w;
    PermRefl(w, b, b + iOff);
    ChainStep(s, b + jo);
    if jo > 0 {
      DistinctAt(s, b + jo, b);
    }
    while jj != lo && less(jj.obj, jj.prev.obj)
      invariant 0 <= jo < iOff && jj == s[b + jo]
      invariant jj != lo <==> jo > 0
      invariant jo > 0 ==> jj.prev == s[b + jo - 1]
      invariant Stores(s, w') && Perm(w, w', b, b + iOff)
      invariant StrictWeakOrder(less) ==> ShiftState(w', b, iOff, jo, less)
      decreases jo
    {
      assert jj.obj == w'[b + jo] && jj.prev.obj == w'[b + jo - 1];
      jj, w', jo := ShiftLeftStep(s, w, w', jj, jo, less, b, iOff);
      ChainStep(s, b + jo);
      if jo > 0 {
        DistinctAt(s, b + jo, b);
      }
    }
    if StrictWeakOrder(less) {
      assert jo > 0 ==> jj.obj == w'[b + jo] && jj.prev.obj == w'[b + jo - 1];
      ShiftDone(w', b, iOff, jo, less);
    }
  }

  /** One exchange of the shift-right loop. */
  method ShiftRightStep<T>(ghost s: seq<Node<T>>, ghost w0: seq<T>, ghost w: seq<T>, j: Node<T>, ghost jOff: int,
                           ghost b: int, ghost n: int, ghost iOff: int)
    returns (j': Node?<T>, ghost w': seq<T>, ghost jOff': int)
    requires Chain(s) && Stores(s, w) && 0 <= b && b + n <= |s| && 0 <= iOff && Perm(w0, w, b + iOff, b + n)
    requires iOff < jOff < n && j == s[b + jOff]
    modifies s`obj
    ensures Stores(s, w') && Perm(w0, w', b + iOff, b + n)
    ensures jOff' == jOff + 1 && j' == NodeAt(s, b + jOff')
  {
    ChainStep(s, b + jOff);
    SwapObjs(s, w, j, j.prev, b + jOff, b + jOff - 1);
    PermThenSwap(w0, w, b + jOff, b + jOff - 1, b + iOff, b + n);
    j', w', jOff' := j.next, Swapped(w, b + jOff, b + jOff - 1), jOff + 1;
  }

  /** The shift-right loop: exchanges the payload at `j` with its
      predecessor while it must precede it, up to the end of the segment.
      Nothing before offset `iOff` moves. */
  method ShiftRight<T>(ghost s: seq<Node<T>>, ghost w: seq<T>, j: Node?<T>, ghost jOff: int, stop: Node?<T>,
                       less: (T, T) -> bool, ghost b: int, ghost n: int, ghost iOff: int)
    returns (ghost w': seq<T>)
    requires Chain(s) && Stores(s, w) && 0 <= b && 1 <= n && b + n <= |s| && stop == NodeAt(s, b + n)
    requires 1 <= iOff < jOff <= n && j == NodeAt(s, b + jOff)
    modifies s`obj
    ensures Stores(s, w') && Perm(w, w', b + iOff, b + n)
  {
    var jj := j;
    ghost var jo := jOff;
    w' := w;
    PermRefl(w, b + iOff, b + n);
    AtStop(s, b, n, jo);
    if jo < n {
      ChainStep(s, b + jo);
    }
    while jj != null && jj != stop && less(jj.obj, jj.prev.obj)
      invariant iOff < jo <= n && jj == NodeAt(s, b + jo)
      invariant jo < n ==> jj.prev == s[b + jo - 1]
      invariant Stores(s, w') && Perm(w, w', b + iOff, b + n)
      invariant (jj == null || jj == stop) <==> jo == n
      decreases n - jo
    {
      jj, w', jo := ShiftRightStep(s, w, w', jj, jo, b, n, iOff);
      AtStop(s, b, n, jo);
      if jo < n {
        ChainStep(s, b + jo);
      }
    }
  }

  /** A rearrangement after the prefix keeps the prefix's order. */
  lemma AdjSortedKept<T>(w: seq<T>, w': seq<T>, b: int, iOff: int, n: int, less: (T, T) -> bool)
    requires 0 <= b && 0 <= iOff <= n && b + n <= |w| && Perm(w, w', b + iOff, b + n)
    requires AdjSorted(w, b, b + iOff, less)
    ensures AdjSorted(w', b, b + iOff, less)
  {
    forall k | 0 <= k < b + iOff
      ensures w'[k] == w[k]
    {
      assert w'[k] == w'[..b + iOff][k] && w[k] == w[..b + iOff][k];
    }
  }

  /** The exchange of the out-of-order pair ending at `iOff`, which starts
      the shift to the left. */
  method SwapBack<T(!new)>(ghost s: seq<Node<T>>, ghost v: seq<T>, ghost w: seq<T>, i: Node<T>,
                           ghost iOff: int, less: (T, T) -> bool, ghost b: int, ghost n: int)
    returns (p: Node<T>, ghost w1: seq<T>)
    requires Chain(s) && Stores(s, w) && 0 <= b && 1 <= iOff < n && b + n <= |s|
    requires i == s[b + iOff] && Perm(v, w, b, b + n)
    requires StrictWeakOrder(less) ==> AdjSorted(w, b, b + iOff, less)
    modifies s`obj
    ensures Stores(s, w1) && Perm(v, w1, b, b + n) && p == s[b + iOff - 1]
    ensures w1 == Swapped(w, b + iOff - 1, b + iOff)
    ensures StrictWeakOrder(less) ==> ShiftState(w1, b, iOff, iOff - 1, less)
  {
    ChainStep(s, b + iOff);
    p := i.prev;
    SwapObjs(s, w, i, p, b + iOff, b + iOff - 1);
    w1 := Swapped(w, b + iOff, b + iOff - 1);
    assert w1 == Swapped(w, b + iOff - 1, b + iOff);
    if StrictWeakOrder(less) {
      ShiftStart(w, b, iOff, less);
    }
    PermThenSwap(v, w, b + iOff, b + iOff - 1, b, b + n);
  }

  /** The first half of a repair: exchange the out-of-order pair at `iOff`
      and shift the smaller payload left. */
  method SwapAndShiftLeft<T(!new)>(ghost s: seq<Node<T>>, ghost v: seq<T>, ghost w: seq<T>, lo: Node<T>, i: Node<T>,
                                   ghost iOff: int, less: (T, T) -> bool, ghost b: int, ghost n: int)
    returns (ghost w': seq<T>)
    requires Chain(s) && Stores(s, w) && 0 <= b && 1 <= iOff < n && b + n <= |s| && lo == s[b]
    requires i == s[b + iOff] && Perm(v, w, b, b + n)
    requires StrictWeakOrder(less) ==> AdjSorted(w, b, b + iOff, less)
    modifies s`obj
    ensures Stores(s, w') && Perm(v, w', b, b + n)
    ensures StrictWeakOrder(less) ==> AdjSorted(w', b, b + iOff, less)
  {
    var p;
    ghost var w1;
    p, w1 := SwapBack(s, v, w, i, iOff, less, b, n);
    w' := ShiftLeft(s, w1, lo, p, iOff - 1, less, b, iOff);
    PermWiden(w1, w', b, b + iOff, b, b + n);
    PermTrans(v, w1, w', b, b + n);
  }

  /** One repair: exchange the out-of-order pair at `iOff`, shift left, shift
      right; under an ordering the prefix before `iOff` is in order after. */
  method Repair<T(!new)>(ghost s: seq<Node<T>>, ghost v: seq<T>, ghost w: seq<T>, lo: Node<T>, i: Node<T>, ghost iOff: int,
                         stop: Node?<T>, less: (T, T) -> bool, ghost b: int, ghost n: int)
    returns (ghost w': seq<T>)
    requires Chain(s) && Stores(s, w) && 0 <= b && 1 <= iOff < n && b + n <= |s| && lo == s[b]
    requires stop == NodeAt(s, b + n) && i == s[b + iOff] && Perm(v, w, b, b + n)
    requires StrictWeakOrder(less) ==> AdjSorted(w, b, b + iOff, less)
    modifies s`obj
    ensures Stores(s, w') && Perm(v, w', b, b + n)
    ensures StrictWeakOrder(less) ==> AdjSorted(w', b, b + iOff, less)
  {
    ghost var w2 := SwapAndShiftLeft(s, v, w, lo, i, iOff, less, b, n);
    ChainStep(s, b + iOff);
    var q := i.next;
    w' := ShiftRight(s, w2, q, iOff + 1, stop, less, b, n, iOff);
    if StrictWeakOrder(less) {
      AdjSortedKept(w2, w', b, iOff, n, less);
    }
    PermWiden(w2, w', b + iOff, b + n, b, b + n);
    PermTrans(v, w2, w', b, b + n);
  }

  /** partialInsertionSortList on the `n` nodes from `lo` to `hi`: `ok`
      reports a sorted segment. An already ordered segment is recognised and
      left alone; a segment shorter than 50 is only checked, never changed. */
  method PartialInsertionSortList<T(!new)>(ghost s: seq<Node<T>>, ghost v: seq<T>, lo: Node<T>, hi: Node<T>,
                                           less: (T, T) -> bool, ghost b: int, ghost n: int)
    returns (ok: bool, ghost r: seq<T>)
    requires Chain(s) && Stores(s, v) && 0 <= b && 1 <= n && b + n <= |s|
    requires lo == s[b] && hi == s[b + n - 1]
    modifies s`obj
    ensures Stores(s, r) && Perm(v, r, b, b + n)
    ensures ok && StrictWeakOrder(less) ==> Sorted(r, b, b + n, less)
    ensures AdjSorted(v, b, b + n, less) ==> ok && r == v
    ensures n < 50 ==> r == v && (ok <==> AdjSorted(v, b, b + n, less))
  {
    var count := CountSegment(s, lo, hi, b, n);
    ChainStep(s, b + n - 1);
    var stop := hi.next;
    ChainStep(s, b);
    var i := lo.next;
    ghost var iOff := 1;
    r := v;
    PermRefl(v, b, b + n);
    var step := 0;
    while step < 5
      invariant 0 <= step <= 5 && 1 <= iOff <= n && i == NodeAt(s, b + iOff)
      invariant Stores(s, r) && Perm(v, r, b, b + n)
      invariant step == 0 ==> r == v && iOff == 1
      invariant step > 0 ==> count >= 50 && !AdjSorted(v, b, b + n, less)
      invariant step == 0 || StrictWeakOrder(less) ==> AdjSorted(r, b, b + iOff, less)
    {
      ghost var iOff0 := iOff;
      i, iOff := ScanSorted(s, r, i, iOff, stop, less, b, n);
      if step == 0 || StrictWeakOrder(less) {
        AdjSortedJoin(r, b, b + iOff0, b + iOff, less);
      }
      if i == null || i == stop {
        if StrictWeakOrder(less) {
          AdjSortedIsSorted(r, b, b + n, less);
        }
        return true, r;
      }
      assert step == 0 ==> !AdjSorted(v, b, b + n, less) by {
        if step == 0 {
          assert iOff < n && less(v[b + iOff], v[b + iOff - 1]);
        }
      }
      if count < 50 {
        return false, r;
      }
      r := Repair(s, v, r, lo, i, iOff, stop, less, b, n);
      step := step + 1;
    }
    ok := false;
  }
}
