/** Pivot selection of the list PDQSort (sort-pdq.go): order2List,
    medianList3, medianAdjacentList and choosePivotList, together with the
    sortedness hint they report. A candidate pivot is a node known by its
    payload and its offset from the segment's first node; the counter of
    exchanges the source threads by reference is passed in and returned. */
module PdqPivot {
  import opened Nodes
  import opened Ordering
  import opened PdqPrimitives

  /** pdqSortedHint. */
  datatype Hint = Unknown | Increasing | Decreasing

  /** A candidate pivot: the payload of a node and its offset. */
  datatype Cand<T> = Cand(obj: T, off: int)

  /** order2List: the pair in order, counting one exchange when `b` must
      precede `a`. */
  function Order2List<T>(a: Cand<T>, b: Cand<T>, swaps: int, less: (T, T) -> bool): (r: (Cand<T>, Cand<T>, int))
    ensures (r.0 == a && r.1 == b && r.2 == swaps) || (r.0 == b && r.1 == a && r.2 == swaps + 1)
    ensures r.2 == swaps <==> !less(b.obj, a.obj)
  {
    if less(b.obj, a.obj) then (b, a, swaps + 1) else (a, b, swaps)
  }

  /** medianList3: three order2List steps, a sorting network for three; the
      middle one is returned with the updated counter. */
  function MedianList3<T>(a: Cand<T>, b: Cand<T>, c: Cand<T>, swaps: int, less: (T, T) -> bool): (r: (Cand<T>, int))
    ensures r.0 == a || r.0 == b || r.0 == c
    ensures swaps <= r.1 <= swaps + 3
  {
    var p := Order2List(a, b, swaps, less);
    var q := Order2List(p.1, c, p.2, less);
    var t := Order2List(p.0, q.0, q.2, less);
    (t.1, t.2)
  }

  function Ind(p: bool): int {
    if p then 1 else 0
  }

  /** `m` is a median of `x`, `y`, `z`: one of them, with at most one of the
      three strictly before it and at most one strictly after it. */
  ghost predicate IsMedian3<T>(x: T, y: T, z: T, m: T, less: (T, T) -> bool) {
    (m == x || m == y || m == z) &&
    Ind(less(x, m)) + Ind(less(y, m)) + Ind(less(z, m)) <= 1 &&
    Ind(less(m, x)) + Ind(less(m, y)) + Ind(less(m, z)) <= 1
  }

  /** Three payloads already in order. */
  ghost predicate InOrder3<T>(x: T, y: T, z: T, less: (T, T) -> bool) {
    !less(y, x) && !less(z, y)
  }

  /** Three payloads each strictly before the one in front of it. */
  ghost predicate Descending3<T>(x: T, y: T, z: T, less: (T, T) -> bool) {
    less(y, x) && less(z, x) && less(z, y)
  }

  /** Under a strict weak ordering medianList3 picks a median of its three
      candidates. */
  lemma MedianList3IsMedian<T(!new)>(a: Cand<T>, b: Cand<T>, c: Cand<T>, swaps: int, less: (T, T) -> bool)
    requires StrictWeakOrder(less)
    ensures IsMedian3(a.obj, b.obj, c.obj, MedianList3(a, b, c, swaps, less).0.obj, less)
  {
    var p := Order2List(a, b, swaps, less);
    var q := Order2List(p.1, c, p.2, less);
    var t := Order2List(p.0, q.0, q.2, less);
    assert multiset{t.0.obj, t.1.obj, q.1.obj} == multiset{a.obj, b.obj, c.obj};
    assert !less(t.1.obj, t.0.obj) && !less(q.1.obj, t.1.obj);
  }

  /** medianList3 counts no exchange exactly when its candidates are in
      order, and three exactly when each precedes the one before it; the
      relation need not be an ordering for this. */
  lemma MedianList3Swaps<T>(a: Cand<T>, b: Cand<T>, c: Cand<T>, swaps: int, less: (T, T) -> bool)
    ensures MedianList3(a, b, c, swaps, less).1 == swaps <==> InOrder3(a.obj, b.obj, c.obj, less)
    ensures MedianList3(a, b, c, swaps, less).1 == swaps + 3 <==> Descending3(a.obj, b.obj, c.obj, less)
    ensures InOrder3(a.obj, b.obj, c.obj, less) ==> MedianList3(a, b, c, swaps, less).0 == b
    ensures Descending3(a.obj, b.obj, c.obj, less) ==> MedianList3(a, b, c, swaps, less).0 == b
  {
  }

  /** The hint the exchange count stands for: no exchange in any sample
      means ascending data, the largest possible count descending data. */
  function HintOf(swaps: int): (h: Hint)
    ensures h == Increasing <==> swaps == 0
    ensures h == Decreasing <==> swaps == 12
  {
    if swaps == 0 then Increasing else if swaps == 12 then Decreasing else Unknown
  }

  /** The candidate at offset `k` of the segment `w`. */
  function At<T>(w: seq<T>, k: int): Cand<T>
    requires 0 <= k < |w|
  {
    Cand(w[k], k)
  }

  /** medianAdjacentList on payloads: the median of offsets k-1, k, k+1. */
  function MedianAdjacent<T>(w: seq<T>, k: int, swaps: int, less: (T, T) -> bool): (r: (Cand<T>, int))
    requires 0 < k < |w| - 1
    ensures k - 1 <= r.0.off <= k + 1 && r.0 == At(w, r.0.off)
  {
    MedianList3(At(w, k - 1), At(w, k), At(w, k + 1), swaps, less)
  }

  /** The three samples choosePivotList compares, at a quarter, half and
      three quarters of the segment; refined to the median of the sample's
      neighbourhood for segments of at least 50 elements. */
  function Samples<T>(w: seq<T>, less: (T, T) -> bool): (r: (Cand<T>, Cand<T>, Cand<T>, int))
    requires |w| >= 8
    ensures 0 <= r.0.off < |w| && r.0 == At(w, r.0.off)
    ensures 0 <= r.1.off < |w| && r.1 == At(w, r.1.off)
    ensures 0 <= r.2.off < |w| && r.2 == At(w, r.2.off)
  {
    var n := |w|;
    if n >= 50 then
      var i := MedianAdjacent(w, n / 4 * 1, 0, less);
      var j := MedianAdjacent(w, n / 4 * 2, i.1, less);
      var k := MedianAdjacent(w, n / 4 * 3, j.1, less);
      (i.0, j.0, k.0, k.1)
    else
      (At(w, n / 4 * 1), At(w, n / 4 * 2), At(w, n / 4 * 3), 0)
  }

  /** choosePivotList on the payloads `w` of the segment: the offset of the
      pivot and the hint. */
  function ChoosePivot<T>(w: seq<T>, less: (T, T) -> bool): (r: (int, Hint))
    requires |w| >= 1
    ensures 0 <= r.0 < |w|
  {
    var n := |w|;
    if n < 8 then (n / 4 * 2, HintOf(0))
    else
      var t := Samples(w, less);
      var m := MedianList3(t.0, t.1, t.2, t.3, less);
      (m.0.off, HintOf(m.1))
  }

  /** Short segments are not sampled: the middle-ish offset, hinted ascending. */
  lemma ChoosePivotShort<T>(w: seq<T>, less: (T, T) -> bool)
    requires 1 <= |w| < 8
    ensures ChoosePivot(w, less) == (|w| / 4 * 2, Increasing)
  {
  }

  /** Between 8 and 49 elements the three samples decide: the pivot is their
      median under an ordering, the hint is ascending exactly when they are in
      order, and it is never descending. */
  lemma ChoosePivotMedium<T(!new)>(w: seq<T>, less: (T, T) -> bool)
    requires 8 <= |w| < 50
    ensures var n := |w|;
      var p := ChoosePivot(w, less).0;
      (p == n / 4 || p == n / 4 * 2 || p == n / 4 * 3) &&
      (StrictWeakOrder(less) ==> IsMedian3(w[n / 4], w[n / 4 * 2], w[n / 4 * 3], w[p], less)) &&
      (ChoosePivot(w, less).1 == Increasing <==> InOrder3(w[n / 4], w[n / 4 * 2], w[n / 4 * 3], less)) &&
      ChoosePivot(w, less).1 != Decreasing
  {
    var n := |w|;
    MedianList3Swaps(At(w, n / 4), At(w, n / 4 * 2), At(w, n / 4 * 3), 0, less);
    if StrictWeakOrder(less) {
      MedianList3IsMedian(At(w, n / 4), At(w, n / 4 * 2), At(w, n / 4 * 3), 0, less);
    }
  }

  /** From 50 elements on the hint is the count of all four medianList3
      steps: those of the three neighbourhoods and that of the samples. */
  lemma HintOfLong<T>(w: seq<T>, less: (T, T) -> bool)
    requires |w| >= 50
    ensures var n := |w|;
      var mi := MedianAdjacent(w, n / 4, 0, less);
      var mj := MedianAdjacent(w, n / 4 * 2, mi.1, less);
      var mk := MedianAdjacent(w, n / 4 * 3, mj.1, less);
      ChoosePivot(w, less).1 == HintOf(MedianList3(mi.0, mj.0, mk.0, mk.1, less).1)
  {
  }

  /** From 50 elements on (Tukey's ninther) the hint is ascending exactly
      when all three neighbourhoods and the three samples are in order. */
  lemma ChoosePivotLongIncreasing<T>(w: seq<T>, less: (T, T) -> bool)
    requires |w| >= 50
    ensures var n := |w|;
      var i, j, k := n / 4, n / 4 * 2, n / 4 * 3;
      ChoosePivot(w, less).1 == Increasing <==>
        InOrder3(w[i - 1], w[i], w[i + 1], less) && InOrder3(w[j - 1], w[j], w[j + 1], less) &&
        InOrder3(w[k - 1], w[k], w[k + 1], less) && InOrder3(w[i], w[j], w[k], less)
  {
    var n := |w|;
    var i, j, k := n / 4, n / 4 * 2, n / 4 * 3;
    var mi := MedianAdjacent(w, i, 0, less);
    var mj := MedianAdjacent(w, j, mi.1, less);
    var mk := MedianAdjacent(w, k, mj.1, less);
    HintOfLong(w, less);
    MedianList3Swaps(At(w, i - 1), At(w, i), At(w, i + 1), 0, less);
    MedianList3Swaps(At(w, j - 1), At(w, j), At(w, j + 1), mi.1, less);
    MedianList3Swaps(At(w, k - 1), At(w, k), At(w, k + 1), mj.1, less);
    MedianList3Swaps(mi.0, mj.0, mk.0, mk.1, less);
  }

  /** ... and descending exactly when all of them are strictly descending. */
  lemma ChoosePivotLongDecreasing<T>(w: seq<T>, less: (T, T) -> bool)
    requires |w| >= 50
    ensures var n := |w|;
      var i, j, k := n / 4, n / 4 * 2, n / 4 * 3;
      ChoosePivot(w, less).1 == Decreasing <==>
        Descending3(w[i - 1], w[i], w[i + 1], less) && Descending3(w[j - 1], w[j], w[j + 1], less) &&
        Descending3(w[k - 1], w[k], w[k + 1], less) && Descending3(w[i], w[j], w[k], less)
  {
    var n := |w|;
    var i, j, k := n / 4, n / 4 * 2, n / 4 * 3;
    var mi := MedianAdjacent(w, i, 0, less);
    var mj := MedianAdjacent(w, j, mi.1, less);
    var mk := MedianAdjacent(w, k, mj.1, less);
    HintOfLong(w, less);
    MedianList3Swaps(At(w, i - 1), At(w, i), At(w, i + 1), 0, less);
    MedianList3Swaps(At(w, j - 1), At(w, j), At(w, j + 1), mi.1, less);
    MedianList3Swaps(At(w, k - 1), At(w, k), At(w, k + 1), mj.1, less);
    MedianList3Swaps(mi.0, mj.0, mk.0, mk.1, less);
  }

  /** On a sorted segment no sample needs an exchange, so the hint is
      ascending whatever the length. */
  lemma SortedHintIncreasing<T(!new)>(w: seq<T>, less: (T, T) -> bool)
    requires |w| >= 1 && Sorted(w, 0, |w|, less)
    ensures ChoosePivot(w, less).1 == Increasing
  {
    var n := |w|;
    var i, j, k := n / 4, n / 4 * 2, n / 4 * 3;
    if n < 8 {
      ChoosePivotShort(w, less);
    } else if n < 50 {
      assert InOrder3(w[i], w[j], w[k], less);
      ChoosePivotMedium(w, less);
    } else {
      assert InOrder3(w[i - 1], w[i], w[i + 1], less);
      assert InOrder3(w[j - 1], w[j], w[j + 1], less);
      assert InOrder3(w[k - 1], w[k], w[k + 1], less);
      assert InOrder3(w[i], w[j], w[k], less);
      ChoosePivotLongIncreasing(w, less);
    }
  }

  /** The pivot of a sampled segment is the median of its three samples. */
  lemma ChoosePivotOfSamples<T>(w: seq<T>, less: (T, T) -> bool)
    requires |w| >= 8
    ensures var t := Samples(w, less);
      w[ChoosePivot(w, less).0] == MedianList3(t.0, t.1, t.2, t.3, less).0.obj
  {
  }

  /** From 50 elements on, each sample is the median of a neighbourhood
      (the exchange counts threaded between them do not affect the choice). */
  lemma SamplesOfLong<T>(w: seq<T>, less: (T, T) -> bool)
    requires |w| >= 50
    ensures var n := |w|;
      var t := Samples(w, less);
      t.0 == MedianAdjacent(w, n / 4, 0, less).0 &&
      t.1 == MedianAdjacent(w, n / 4 * 2, 0, less).0 &&
      t.2 == MedianAdjacent(w, n / 4 * 3, 0, less).0
  {
    var n := |w|;
    var i := MedianAdjacent(w, n / 4 * 1, 0, less);
    var j := MedianAdjacent(w, n / 4 * 2, i.1, less);
    MedianAdjacentSwapsIrrelevant(w, n / 4 * 2, i.1, less);
    MedianAdjacentSwapsIrrelevant(w, n / 4 * 3, j.1, less);
  }

  /** The counter threaded into medianAdjacentList does not affect the
      median it picks. */
  lemma MedianAdjacentSwapsIrrelevant<T>(w: seq<T>, k: int, swaps: int, less: (T, T) -> bool)
    requires 0 < k < |w| - 1
    ensures MedianAdjacent(w, k, swaps, less).0 == MedianAdjacent(w, k, 0, less).0
  {
    MedianList3SwapsIrrelevant(At(w, k - 1), At(w, k), At(w, k + 1), swaps, less);
  }

  /** The counter passed to medianList3 does not affect the median chosen. */
  lemma MedianList3SwapsIrrelevant<T>(a: Cand<T>, b: Cand<T>, c: Cand<T>, swaps: int, less: (T, T) -> bool)
    ensures MedianList3(a, b, c, swaps, less).0 == MedianList3(a, b, c, 0, less).0
  {
  }

  /** Under an ordering medianAdjacentList picks a median of the node's
      neighbourhood. */
  lemma MedianAdjacentIsMedian<T(!new)>(w: seq<T>, k: int, swaps: int, less: (T, T) -> bool)
    requires 0 < k < |w| - 1 && StrictWeakOrder(less)
    ensures IsMedian3(w[k - 1], w[k], w[k + 1], MedianAdjacent(w, k, swaps, less).0.obj, less)
  {
    MedianList3IsMedian(At(w, k - 1), At(w, k), At(w, k + 1), swaps, less);
  }

  /** Under an ordering the pivot of a sampled segment is a median of its
      three samples (for 50 elements or more, Tukey's ninther together with
      SamplesOfLong and MedianAdjacentIsMedian). */
  lemma ChoosePivotIsMedian<T(!new)>(w: seq<T>, less: (T, T) -> bool)
    requires |w| >= 8 && StrictWeakOrder(less)
    ensures var t := Samples(w, less);
      IsMedian3(t.0.obj, t.1.obj, t.2.obj, w[ChoosePivot(w, less).0], less)
  {
    var t := Samples(w, less);
    ChoosePivotOfSamples(w, less);
    MedianList3IsMedian(t.0, t.1, t.2, t.3, less);
  }

  /** medianAdjacentList: reads the node and its two neighbours. */
  method MedianAdjacentList<T>(ghost s: seq<Node<T>>, ghost v: seq<T>, node: Node<T>, off: int, swaps: int,
                               less: (T, T) -> bool, ghost b: int, ghost n: int)
    returns (m: Cand<T>, swaps': int)
    requires Chain(s) && Stores(s, v) && 0 <= b && b + n <= |s| && 0 < off < n - 1 && node == s[b + off]
    ensures (m, swaps') == MedianAdjacent(v[b..b + n], off, swaps, less)
  {
    ChainStep(s, b + off);
    var p, q := node.prev, node.next;
    assert v[b..b + n][off - 1] == p.obj && v[b..b + n][off] == node.obj && v[b..b + n][off + 1] == q.obj;
    var r := MedianList3(Cand(p.obj, off - 1), Cand(node.obj, off), Cand(q.obj, off + 1), swaps, less);
    m, swaps' := r.0, r.1;
  }

  /** The sampling part of choosePivotList for at least 8 elements, given the
      nodes at a quarter, half and three quarters of the segment. */
  method SampleList<T>(ghost s: seq<Node<T>>, ghost v: seq<T>, ghost w: seq<T>, i: Node<T>, j: Node<T>, k: Node<T>,
                       n: int, less: (T, T) -> bool, ghost b: int)
    returns (t: (Cand<T>, Cand<T>, Cand<T>, int))
    requires Chain(s) && Stores(s, v) && 0 <= b && 8 <= n && b + n <= |s| && w == v[b..b + n]
    requires i == s[b + n / 4 * 1] && j == s[b + n / 4 * 2] && k == s[b + n / 4 * 3]
    ensures t == Samples(w, less)
  {
    var iOff, jOff, kOff := n / 4 * 1, n / 4 * 2, n / 4 * 3;
    assert w[iOff] == i.obj && w[jOff] == j.obj && w[kOff] == k.obj;
    var ci, cj, ck := Cand(i.obj, iOff), Cand(j.obj, jOff), Cand(k.obj, kOff);
    var swaps := 0;
    if n >= 50 {
      ci, swaps := MedianAdjacentList(s, v, i, iOff, swaps, less, b, n);
      cj, swaps := MedianAdjacentList(s, v, j, jOff, swaps, less, b, n);
      ck, swaps := MedianAdjacentList(s, v, k, kOff, swaps, less, b, n);
    }
    t := (ci, cj, ck, swaps);
  }

  /** choosePivotList: walks to the three samples (each walk starting from
      the previous sample) and compares them, with the result of the
      payload-level ChoosePivot. */
  method ChoosePivotList<T>(ghost s: seq<Node<T>>, ghost v: seq<T>, lo: Node<T>, n: int,
                            less: (T, T) -> bool, ghost b: int)
    returns (pivotOffset: int, hint: Hint)
    requires Chain(s) && Stores(s, v) && 0 <= b && 1 <= n && b + n <= |s| && lo == s[b]
    ensures (pivotOffset, hint) == ChoosePivot(v[b..b + n], less)
  {
    ghost var w := v[b..b + n];
    var swaps := 0;
    var iOff := n / 4 * 1;
    var jOff := n / 4 * 2;
    var kOff := n / 4 * 3;
    var i := AdvanceT(s, lo, b, iOff);
    var j := AdvanceT(s, i, b + iOff, jOff - iOff);
    var k := AdvanceT(s, j, b + jOff, kOff - jOff);
    if n >= 8 {
      var t := SampleList(s, v, w, i, j, k, n, less, b);
      var m := MedianList3(t.0, t.1, t.2, t.3, less);
      jOff, swaps := m.0.off, m.1;
    }
    hint := HintOf(swaps);
    pivotOffset := jOff;
  }
}
