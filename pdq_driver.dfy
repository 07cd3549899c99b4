/** pdqsortListP, the driver loop of the list PDQSort (sort-pdq.go): short
    segments go to insertion sort, a spent depth budget to heap sort; other
    segments are partitioned around a chosen pivot, the smaller side sorted
    by a recursive call and the larger one by the next round of the loop.

    The loop works on a segment `[b, b + n)` of the range `[x, y)` it was
    given. Everything outside the segment is already where it belongs
    (`Settled`), and when the segment has a predecessor inside the list,
    nothing in the segment must precede it (`Bounded`): that predecessor is
    an earlier pivot or lies before the whole range. */
module PdqDriver {
  import opened Nodes
  import opened Ordering
  import opened PdqPrimitives
  import opened PdqInsertion
  import opened PdqHeap
  import opened PdqBreak
  import opened PdqPivot
  import opened PdqReverse
  import opened PdqPartial
  import opened PdqPartition

  /** Segments of at most this many nodes are sorted by insertion. */
  const MaxInsertion := 12

  /** The parts of `[x, y)` before and after the segment `[b, b + n)` are
      sorted, and each part stands below everything after it. */
  ghost predicate Settled<T>(r: seq<T>, x: int, y: int, b: int, n: int, less: (T, T) -> bool)
    requires 0 <= x <= b && 0 <= n && b + n <= y <= |r|
  {
    Sorted(r, x, b, less) && Sorted(r, b + n, y, less) &&
    Below(r, x, b, b, y, less) && Below(r, b, b + n, b + n, y, less)
  }

  /** No element of the segment must precede the element just before it. */
  ghost predicate Bounded<T>(r: seq<T>, b: int, n: int, less: (T, T) -> bool)
    requires 0 <= b && 0 <= n && b + n <= |r|
  {
    b > 0 ==> forall k :: b <= k < b + n ==> !less(r[k], r[b - 1])
  }

  /** The driver's loop invariant on payloads: `r` rearranges `v` within
      `[x, y)`, and under a strict weak ordering only the segment
      `[b, b + n)` is still to be sorted. */
  ghost predicate Progress<T(!new)>(v: seq<T>, r: seq<T>, x: int, y: int, b: int, n: int, less: (T, T) -> bool) {
    0 <= x <= b && 0 <= n && b + n <= y <= |r| && Perm(v, r, x, y) &&
    (StrictWeakOrder(less) ==> Settled(r, x, y, b, n, less) && Bounded(r, b, n, less))
  }

  /** The pivot at `m` splits the segment: what comes before it must precede
      it, nothing after it must. */
  ghost predicate SplitAt<T>(r: seq<T>, b: int, n: int, m: int, less: (T, T) -> bool)
    requires 0 <= b <= m < b + n <= |r|
  {
    (forall k :: b <= k < m ==> less(r[k], r[m])) &&
    (forall k :: m < k < b + n ==> !less(r[k], r[m]))
  }

  lemma SettledStart<T(!new)>(v: seq<T>, x: int, y: int, less: (T, T) -> bool)
    requires 0 <= x <= y <= |v|
    requires StrictWeakOrder(less) ==> Bounded(v, x, y - x, less)
    ensures Progress(v, v, x, y, x, y - x, less)
  {
    PermRefl(v, x, y);
  }

  /** Outside a rearranged range nothing moved. */
  lemma PermOutside<T>(r: seq<T>, r': seq<T>, b: int, e: int, k: int)
    requires Perm(r, r', b, e) && 0 <= k < |r| && !(b <= k < e)
    ensures r'[k] == r[k]
  {
    if k < b {
      assert r[k] == r[..b][k] && r'[k] == r'[..b][k];
    } else {
      assert r[k] == r[e..][k - e] && r'[k] == r'[e..][k - e];
    }
  }

  /** Rearranging the segment keeps the driver's invariant. */
  lemma SettledPerm<T(!new)>(v: seq<T>, r: seq<T>, r': seq<T>, x: int, y: int, b: int, n: int, less: (T, T) -> bool)
    requires Progress(v, r, x, y, b, n, less) && Perm(r, r', b, b + n)
    ensures Progress(v, r', x, y, b, n, less)
  {
    PermWiden(r, r', b, b + n, x, y);
    PermTrans(v, r, r', x, y);
    if StrictWeakOrder(less) {
      forall k | 0 <= k < |r| && !(b <= k < b + n)
        ensures r'[k] == r[k]
      {
        PermOutside(r, r', b, b + n, k);
      }
      forall p | x <= p < b
        ensures forall k :: b <= k < b + n ==> !less(r'[k], r'[p])
      {
        PermKeepsLowerBound(r, r', b, b + n, r[p], less);
      }
      forall q | b + n <= q < y
        ensures forall k :: b <= k < b + n ==> !less(r'[q], r'[k])
      {
        PermKeepsUpperBound(r, r', b, b + n, r[q], less);
      }
      if b > 0 {
        PermKeepsLowerBound(r, r', b, b + n, r[b - 1], less);
      }
    }
  }

  /** A settled segment that is sorted itself completes the range. */
  lemma SettledSorted<T>(r: seq<T>, x: int, y: int, b: int, n: int, less: (T, T) -> bool)
    requires 0 <= x <= b && 0 <= n && b + n <= y <= |r|
    requires Settled(r, x, y, b, n, less) && Sorted(r, b, b + n, less)
    ensures Sorted(r, x, y, less)
  {
  }

  /** After the pivot at `m` split the segment and the part before it was
      sorted, only the part after it remains. */
  lemma {:induction false} SettleLeft<T(!new)>(v: seq<T>, r: seq<T>, r': seq<T>, x: int, y: int, b: int, n: int, m: int,
                                               less: (T, T) -> bool)
    requires Progress(v, r, x, y, b, n, less) && b <= m < b + n && SplitAt(r, b, n, m, less)
    requires Perm(r, r', b, m) && (StrictWeakOrder(less) ==> Sorted(r', b, m, less))
    ensures Progress(v, r', x, y, m + 1, b + n - m - 1, less)
  {
    PermWiden(r, r', b, m, b, b + n);
    SettledPerm(v, r, r', x, y, b, n, less);
    if StrictWeakOrder(less) {
      forall k | m <= k < |r|
        ensures r'[k] == r[k]
      {
        PermOutside(r, r', b, m, k);
      }
      PermKeepsStrictUpper(r, r', b, m, r[m], less);
      forall p, q | x <= p < q < m + 1
        ensures !less(r'[q], r'[p])
      {
        if p < b {
          assert Below(r', x, b, b, y, less);
        }
      }
      forall p, q | x <= p < m + 1 && m + 1 <= q < y
        ensures !less(r'[q], r'[p])
      {
        if p < b {
          assert Below(r', x, b, b, y, less);
        } else if q >= b + n {
          assert Below(r', b, b + n, b + n, y, less);
        } else if p < m {
          assert less(r'[p], r'[m]) && !less(r'[q], r'[m]);
        }
      }
    }
  }

  /** After the pivot at `m` split the segment and the part after it was
      sorted, only the part before it remains. */
  lemma {:induction false} SettleRight<T(!new)>(v: seq<T>, r: seq<T>, r': seq<T>, x: int, y: int, b: int, n: int, m: int,
                                                less: (T, T) -> bool)
    requires Progress(v, r, x, y, b, n, less) && b <= m < b + n && SplitAt(r, b, n, m, less)
    requires Perm(r, r', m + 1, b + n) && (StrictWeakOrder(less) ==> Sorted(r', m + 1, b + n, less))
    ensures Progress(v, r', x, y, b, m - b, less)
  {
    PermWiden(r, r', m + 1, b + n, b, b + n);
    SettledPerm(v, r, r', x, y, b, n, less);
    if StrictWeakOrder(less) {
      forall k | 0 <= k < m + 1
        ensures r'[k] == r[k]
      {
        PermOutside(r, r', m + 1, b + n, k);
      }
      PermKeepsLowerBound(r, r', m + 1, b + n, r[m], less);
      forall p, q | m <= p < q < y
        ensures !less(r'[q], r'[p])
      {
        if p < b + n && q >= b + n {
          assert Below(r', b, b + n, b + n, y, less);
        }
      }
      forall p, q | b <= p < m && m <= q < y
        ensures !less(r'[q], r'[p])
      {
        if q >= b + n {
          assert Below(r', b, b + n, b + n, y, less);
        } else if q > m {
          assert less(r'[p], r'[m]) && !less(r'[q], r'[m]);
        }
      }
    }
  }

  /** After partitionEqualList put the pivot first, its equals after it and
      the `rest` elements it precedes last, and the segment's predecessor was
      not below the pivot, the equals are settled: every one of them is
      equivalent to the pivot. */
  lemma {:induction false} SettleEqual<T(!new)>(v: seq<T>, r: seq<T>, x: int, y: int, b: int, n: int, rest: int,
                                                less: (T, T) -> bool)
    requires Progress(v, r, x, y, b, n, less) && 0 < b && 0 <= rest < n
    requires !less(r[b - 1], r[b])
    requires forall k :: b < k < b + n - rest ==> !less(r[b], r[k])
    requires forall k :: b + n - rest <= k < b + n ==> less(r[b], r[k])
    ensures Progress(v, r, x, y, b + n - rest, rest, less)
  {
    if StrictWeakOrder(less) {
      var e := b + n - rest;
      forall k | b <= k < e
        ensures !less(r[b], r[k]) && !less(r[k], r[b])
      {
        assert !less(r[k], r[b - 1]);
      }
      forall p, q | x <= p < q < e
        ensures !less(r[q], r[p])
      {
        if p < b {
          assert Below(r, x, b, b, y, less);
        } else {
          assert !less(r[q], r[b]) && !less(r[b], r[p]);
        }
      }
      forall p, q | x <= p < e && e <= q < y
        ensures !less(r[q], r[p])
      {
        if p < b {
          assert Below(r, x, b, b, y, less);
        } else if q >= b + n {
          assert Below(r, b, b + n, b + n, y, less);
        } else {
          assert less(r[b], r[q]) && !less(r[b], r[p]);
        }
      }
    }
  }

  /** A segment all of whose elements after the pivot are no greater than it
      leaves partitionEqualList nothing to return. */
  lemma AllEqualLeavesNothing<T>(r: seq<T>, b: int, n: int, rest: int, less: (T, T) -> bool)
    requires 0 <= b && b + n <= |r| && 0 <= rest < n
    requires forall k :: b < k < b + n ==> !less(r[b], r[k])
    requires forall k :: b + n - rest <= k < b + n ==> less(r[b], r[k])
    ensures rest == 0
  {
    if n > 1 {
      assert !less(r[b], r[b + n - 1]);
    }
  }

  /** The choices of the first round when fourteen 5s followed by a 0 are
      sorted with `<`: the three samples at offsets 3, 6 and 9 are all 5, so
      the pivot is the one at offset 6 and the hint is ascending; the
      partial insertion sort gives up, since the 0 stands after a 5, and
      the partition, which puts the pivot first, finds a 0 after 5s and so
      reports the segment as not already split. */
  lemma FivesFirstChoices()
    ensures var v := seq(14, _ => 5) + [0];
            var less := (p: int, q: int) => p < q;
            ChoosePivot(v, less) == (6, Increasing) && !AdjSorted(v, 0, 15, less) &&
            !SplitAround(Swapped(v, 0, 6), 1, 15, v[6], less)
  {
    var v := seq(14, _ => 5) + [0];
    var less := (p: int, q: int) => p < q;
    MedianList3Swaps(At(v, 3), At(v, 6), At(v, 9), 0, less);
    assert less(v[14], v[13]);
    var a := Swapped(v, 0, 6);
    assert a[1] == 5 && a[14] == 0;
    NotSplit(a, 1, 15, v[6], less, 1, 14);
  }

  /** The 0s among the first two elements are counted in the multiset. */
  lemma ZerosInFront(r: seq<int>)
    requires |r| >= 2
    ensures multiset(r)[0] >= (if r[0] == 0 then 1 else 0) + (if r[1] == 0 then 1 else 0)
  {
    assert r == [r[0], r[1]] + r[2..];
  }

  /** Whatever partitionList returns there, its contract fixes it: with the
      pivot 5 at `mid`, only elements below 5 before it and none after it,
      and the fourteen 5s and the 0 merely rearranged, the 0 comes first,
      the pivot sits at offset 1 and the thirteen 5s follow. The round is
      balanced (both sides have at least 15 / 8 elements), so the loop goes
      on with the thirteen 5s after the pivot. */
  lemma FivesFirstPartition(r: seq<int>, mid: int)
    requires var v := seq(14, _ => 5) + [0];
             var less := (p: int, q: int) => p < q;
             Perm(v, r, 0, 15) && 0 <= mid < 15 && r[mid] == v[6] &&
             (forall k :: 0 <= k < mid ==> less(r[k], r[mid])) &&
             (forall k :: mid < k < 15 ==> !less(r[k], r[mid]))
    ensures mid == 1 && r == [0] + seq(14, _ => 5)
    ensures mid >= 15 / 8 && 15 - mid - 1 >= 15 / 8
  {
    var v := seq(14, _ => 5) + [0];
    assert multiset(v) == multiset{0} + multiset(seq(14, _ => 5));
    assert multiset(v)[0] == 1 by {
      assert 0 !in seq(14, _ => 5);
    }
    forall k | 0 <= k < 15
      ensures r[k] == 0 || r[k] == 5
    {
      assert r[k] in multiset(r);
      assert r[k] in v;
    }
    ZerosInFront(r);
    if mid == 0 {
      assert false;
    }
    if mid >= 2 {
      assert false;
    }
    assert r == [0] + seq(14, _ => 5);
  }

  /** The second round on the state `FivesFirstPartition` derives,
      `[0] + fourteen 5s` with the thirteen 5s after offset 1 still to sort:
      that segment passes the equal-keys test (the 5 before it is not below
      its pivot) and has no element above its pivot. */
  lemma ThirteenFives()
    ensures var r := [0] + seq(14, _ => 5);
            var less := (p: int, q: int) => p < q;
            !less(r[1], r[2]) && forall k :: 2 < k < 15 ==> !less(r[2], r[k])
  {
  }

  /** What insertionSortList(lo, hi) does first: it returns when `lo == hi`
      and otherwise reads `lo.next`, which fails on a null `lo`. */
  predicate InsertionEntryFails<T>(lo: Node?<T>, hi: Node?<T>) {
    lo != hi && lo == null
  }

  /** The equal-keys round as the source writes it: the working segment
      becomes whatever partitionEqualList returns, null and 0 included. A
      segment with no element above the pivot makes that null and 0, and
      the next round (0 <= 12 nodes) then enters insertionSortList with a
      null `lo` and the segment's own `hi`. */
  method EqualRoundAsWritten<T>(ghost s: seq<Node<T>>, ghost v: seq<T>, lo: Node<T>, hi: Node<T>, n: int,
                                pivotOffset: int, less: (T, T) -> bool, ghost b: int)
    returns (newLo: Node?<T>, newN: int, ghost r: seq<T>)
    requires Chain(s) && Stores(s, v) && 0 <= b && 1 <= n && b + n <= |s|
    requires lo == s[b] && hi == s[b + n - 1] && 0 <= pivotOffset < n
    modifies s`obj
    ensures Stores(s, r) && Perm(v, r, b, b + n)
    ensures (forall k :: b < k < b + n ==> !less(r[b], r[k])) ==>
              newN == 0 && newN <= MaxInsertion && InsertionEntryFails(newLo, hi)
  {
    newLo, newN, r := PartitionEqualList(s, v, lo, hi, n, pivotOffset, less, b);
    if forall k :: b < k < b + n ==> !less(r[b], r[k]) {
      AllEqualLeavesNothing(r, b, n, newN, less);
    }
  }

  /** One of the fallback sorts ends the loop: insertion sort for a short
      segment, heap sort once the depth budget is spent. */
  method SortRest<T(!new)>(ghost s: seq<Node<T>>, ghost v: seq<T>, ghost r: seq<T>, lo: Node<T>, hi: Node<T>,
                           n: int, limit: int, less: (T, T) -> bool, ghost x: int, ghost y: int, ghost b: int)
    returns (ghost r': seq<T>)
    requires Chain(s) && Stores(s, r) && y <= |s| && Progress(v, r, x, y, b, n, less)
    requires 1 <= n && lo == s[b] && hi == s[b + n - 1]
    requires n <= MaxInsertion || limit == 0
    modifies s`obj
    ensures Stores(s, r') && Perm(v, r', x, y)
    ensures StrictWeakOrder(less) ==> Sorted(r', x, y, less)
    ensures n <= MaxInsertion && AdjSorted(r, b, b + n, less) ==> r' == r
  {
    if n <= MaxInsertion {
      r' := InsertionSortList(s, r, lo, hi, less, b, n);
    } else {
      r' := HeapSortList(s, r, lo, n, less, b);
    }
    SettledPerm(v, r, r', x, y, b, n, less);
    if StrictWeakOrder(less) {
      SettledSorted(r', x, y, b, n, less);
    }
  }

  /** The segment is reversed, and the pivot's offset with it: the new
      offset names the same payload. */
  method ReverseSegment<T>(ghost s: seq<Node<T>>, ghost v: seq<T>, lo: Node<T>, hi: Node<T>, n: int,
                           pivotOffset: int, ghost b: int)
    returns (pivotOffset': int, ghost r: seq<T>)
    requires Chain(s) && Stores(s, v) && 0 <= b && 1 <= n && b + n <= |s|
    requires lo == s[b] && hi == s[b + n - 1] && 0 <= pivotOffset < n
    modifies s`obj
    ensures Stores(s, r) && Perm(v, r, b, b + n) && r == Reversed(v, b, b + n)
    ensures 0 <= pivotOffset' < n && r[b + pivotOffset'] == v[b + pivotOffset]
  {
    r := ReverseRangeList(s, v, lo, hi, b, n);
    pivotOffset' := (n - 1) - pivotOffset;
    ReversedAt(v, b, n, pivotOffset);
  }

  /** After a decreasing hint the segment is reversed and the hint turns
      ascending; the driver's invariant still holds of the reversed
      payloads. Any other hint changes nothing. */
  method ReverseForHint<T(!new)>(ghost s: seq<Node<T>>, ghost v0: seq<T>, ghost v: seq<T>, lo: Node<T>, hi: Node<T>,
                                 n: int, pivotOffset: int, hint: Hint, less: (T, T) -> bool,
                                 ghost x: int, ghost y: int, ghost b: int)
    returns (pivotOffset': int, hint': Hint, ghost r: seq<T>)
    requires Chain(s) && Stores(s, v) && y <= |s| && Progress(v0, v, x, y, b, n, less)
    requires 1 <= n && lo == s[b] && hi == s[b + n - 1] && 0 <= pivotOffset < n
    modifies s`obj
    ensures Stores(s, r) && Progress(v0, r, x, y, b, n, less)
    ensures 0 <= pivotOffset' < n && hint' != Decreasing
    ensures hint != Decreasing ==> r == v && pivotOffset' == pivotOffset && hint' == hint
    ensures hint == Decreasing ==>
              r == Reversed(v, b, b + n) && hint' == Increasing && r[b + pivotOffset'] == v[b + pivotOffset]
  {
    if hint != Decreasing {
      return pivotOffset, hint, v;
    }
    pivotOffset', r := ReverseSegment(s, v, lo, hi, n, pivotOffset, b);
    hint' := Increasing;
    SettledPerm(v0, v, r, x, y, b, n, less);
  }

  /** After an unbalanced partition the patterns are broken, which spends
      one unit of the depth budget. */
  method BreakIfUnbalanced<T(!new)>(ghost s: seq<Node<T>>, ghost v: seq<T>, ghost r: seq<T>, lo: Node<T>,
                                    n: int, limit: int, wasBalanced: bool, less: (T, T) -> bool,
                                    ghost x: int, ghost y: int, ghost b: int)
    returns (limit': int, ghost r': seq<T>)
    requires Chain(s) && Stores(s, r) && y <= |s| && Progress(v, r, x, y, b, n, less)
    requires 1 <= n && lo == s[b] && 0 < limit
    modifies s`obj
    ensures Stores(s, r') && Progress(v, r', x, y, b, n, less)
    ensures 0 <= limit' == (if wasBalanced then limit else limit - 1)
    ensures wasBalanced ==> r' == r
  {
    r', limit' := r, limit;
    if !wasBalanced {
      r' := BreakPatternsList(s, r, lo, n, b);
      limit' := limit - 1;
      SettledPerm(v, r, r', x, y, b, n, less);
    }
  }

  /** choosePivotList as the loop relies on it: the pivot lies inside the
      segment, and a segment already in order is hinted ascending. The exact
      choice is the contract of `ChoosePivotList`; the loop's proofs need no
      more than this, whichever element is picked. */
  method PivotChoice<T(!new)>(ghost s: seq<Node<T>>, ghost r: seq<T>, lo: Node<T>, n: int, less: (T, T) -> bool, ghost b: int)
    returns (pivotOffset: int, hint: Hint)
    requires Chain(s) && Stores(s, r) && 0 <= b && 1 <= n && b + n <= |s| && lo == s[b]
    ensures 0 <= pivotOffset < n
    ensures Sorted(r, b, b + n, less) ==> hint == Increasing
  {
    pivotOffset, hint := ChoosePivotList(s, r, lo, n, less, b);
    if Sorted(r, b, b + n, less) {
      SortedSlice(r, b, b + n, less);
      SortedHintIncreasing(r[b..b + n], less);
    }
  }

  /** What a round does before it partitions: the patterns are broken
      after an unbalanced round, the pivot is chosen, and a segment that
      looked decreasing is reversed, so that the hint is never Decreasing
      afterwards. After a balanced round a segment already in order is not
      touched and is hinted ascending. */
  method PivotAndHint<T(!new)>(ghost s: seq<Node<T>>, ghost v: seq<T>, ghost r: seq<T>, lo: Node<T>, hi: Node<T>,
                               n: int, limit: int, wasBalanced: bool, less: (T, T) -> bool,
                               ghost x: int, ghost y: int, ghost b: int)
    returns (limit': int, pivotOffset: int, hint: Hint, ghost r': seq<T>)
    requires Chain(s) && Stores(s, r) && y <= |s| && Progress(v, r, x, y, b, n, less)
    requires 1 <= n && lo == s[b] && hi == s[b + n - 1] && 0 < limit
    modifies s`obj
    ensures Stores(s, r') && Progress(v, r', x, y, b, n, less)
    ensures 0 <= limit' == (if wasBalanced then limit else limit - 1)
    ensures 0 <= pivotOffset < n && hint != Decreasing
    ensures wasBalanced && Sorted(r, b, b + n, less) ==> r' == r && hint == Increasing
  {
    ghost var r1;
    limit', r1 := BreakIfUnbalanced(s, v, r, lo, n, limit, wasBalanced, less, x, y, b);
    pivotOffset, hint := PivotChoice(s, r1, lo, n, less, b);
    pivotOffset, hint, r' := ReverseForHint(s, v, r1, lo, hi, n, pivotOffset, hint, less, x, y, b);
  }

  /** The optimistic round on a segment that looked sorted: a partial
      insertion sort, which may finish the range. */
  method TryPartial<T(!new)>(ghost s: seq<Node<T>>, ghost v: seq<T>, ghost r: seq<T>, lo: Node<T>, hi: Node<T>,
                             n: int, less: (T, T) -> bool, ghost x: int, ghost y: int, ghost b: int)
    returns (ok: bool, ghost r': seq<T>)
    requires Chain(s) && Stores(s, r) && y <= |s| && Progress(v, r, x, y, b, n, less)
    requires 1 <= n && lo == s[b] && hi == s[b + n - 1]
    modifies s`obj
    ensures Stores(s, r') && Progress(v, r', x, y, b, n, less)
    ensures ok && StrictWeakOrder(less) ==> Sorted(r', x, y, less)
    ensures AdjSorted(r, b, b + n, less) ==> ok && r' == r
  {
    ok, r' := PartialInsertionSortList(s, r, lo, hi, less, b, n);
    SettledPerm(v, r, r', x, y, b, n, less);
    if ok && StrictWeakOrder(less) {
      SettledSorted(r', x, y, b, n, less);
    }
  }

  /** The equal-keys round, taken when the segment's predecessor is not
      below the pivot: the pivot's equals are gathered in front and settled,
      and the loop goes on with the elements above the pivot. When there are
      none the range is finished (the source goes on with a null segment
      instead; see `EqualRoundAsWritten`). */
  method EqualStep<T(!new)>(ghost s: seq<Node<T>>, ghost v: seq<T>, ghost r: seq<T>, lo: Node<T>, hi: Node<T>,
                            n: int, pivotOffset: int, less: (T, T) -> bool, ghost x: int, ghost y: int, ghost b: int)
    returns (done: bool, lo': Node<T>, n': int, ghost b': int, ghost r': seq<T>)
    requires Chain(s) && Stores(s, r) && y <= |s| && Progress(v, r, x, y, b, n, less)
    requires 1 <= n && lo == s[b] && hi == s[b + n - 1] && 0 <= pivotOffset < n
    requires 0 < b && !less(r[b - 1], r[b + pivotOffset])
    modifies s`obj
    ensures Stores(s, r') && Perm(v, r', x, y)
    ensures done ==> (StrictWeakOrder(less) ==> Sorted(r', x, y, less))
    ensures !done ==> Progress(v, r', x, y, b', n', less) && 1 <= n' < n && lo' == s[b'] && hi == s[b' + n' - 1]
  {
    var node, rest;
    node, rest, r' := PartitionEqualList(s, r, lo, hi, n, pivotOffset, less, b);
    SettledPerm(v, r, r', x, y, b, n, less);
    PermOutside(r, r', b, b + n, b - 1);
    SettleEqual(v, r', x, y, b, n, rest, less);
    if rest == 0 {
      if StrictWeakOrder(less) {
        SettledSorted(r', x, y, b + n, 0, less);
      }
      return true, lo, 0, b + n, r';
    }
    done, lo', n', b' := false, node, rest, b + n - rest;
  }

  /** The smaller side before the pivot is sorted by a recursive call (when
      it has more than one element); the loop goes on after the pivot. */
  method LeftThenRight<T(!new)>(ghost s: seq<Node<T>>, ghost v: seq<T>, ghost r: seq<T>, lo: Node<T>, mid: Node<T>,
                                n: int, midOffset: int, limit: int, less: (T, T) -> bool,
                                ghost x: int, ghost y: int, ghost b: int)
    returns (lo': Node<T>, n': int, ghost b': int, ghost r': seq<T>)
    requires Chain(s) && Stores(s, r) && y <= |s| && Progress(v, r, x, y, b, n, less)
    requires 1 <= n && lo == s[b] && 0 <= limit
    requires 0 <= midOffset < n - midOffset - 1 && mid == s[b + midOffset] && SplitAt(r, b, n, b + midOffset, less)
    modifies s`obj
    ensures Stores(s, r') && Progress(v, r', x, y, b', n', less)
    ensures n' == n - midOffset - 1 && b' == b + midOffset + 1 && lo' == s[b']
    decreases n, 0
  {
    r' := r;
    if midOffset > 1 {
      ChainStep(s, b + midOffset);
      r' := PdqsortList(s, r, lo, mid.prev, midOffset, limit, less, b);
    } else {
      PermRefl(r, b, b + midOffset);
    }
    SettleLeft(v, r, r', x, y, b, n, b + midOffset, less);
    ChainStep(s, b + midOffset);
    lo', n', b' := mid.next, n - midOffset - 1, b + midOffset + 1;
  }

  /** The smaller side after the pivot is sorted by a recursive call (when
      it has more than one element); the loop goes on before the pivot. */
  method RightThenLeft<T(!new)>(ghost s: seq<Node<T>>, ghost v: seq<T>, ghost r: seq<T>, hi: Node<T>, mid: Node<T>,
                                n: int, midOffset: int, limit: int, less: (T, T) -> bool,
                                ghost x: int, ghost y: int, ghost b: int)
    returns (hi': Node<T>, n': int, ghost r': seq<T>)
    requires Chain(s) && Stores(s, r) && y <= |s| && Progress(v, r, x, y, b, n, less)
    requires 1 <= n && hi == s[b + n - 1] && 0 <= limit
    requires 0 <= n - midOffset - 1 <= midOffset && 0 < midOffset < n
    requires mid == s[b + midOffset] && SplitAt(r, b, n, b + midOffset, less)
    modifies s`obj
    ensures Stores(s, r') && Progress(v, r', x, y, b, n', less)
    ensures n' == midOffset && hi' == s[b + n' - 1]
    decreases n, 0
  {
    r' := r;
    var rightLen := n - midOffset - 1;
    if rightLen > 1 {
      ChainStep(s, b + midOffset);
      r' := PdqsortList(s, r, mid.next, hi, rightLen, limit, less, b + midOffset + 1);
    } else {
      PermRefl(r, b + midOffset + 1, b + n);
    }
    SettleRight(v, r, r', x, y, b, n, b + midOffset, less);
    ChainStep(s, b + midOffset);
    hi', n' := mid.prev, midOffset;
  }

  /** partitionList on the working segment, which keeps the driver's
      invariant and splits the segment at the pivot. */
  method PartitionSegment<T(!new)>(ghost s: seq<Node<T>>, ghost v: seq<T>, ghost r: seq<T>, lo: Node<T>, hi: Node<T>,
                                   n: int, pivotOffset: int, less: (T, T) -> bool,
                                   ghost x: int, ghost y: int, ghost b: int)
    returns (mid: Node<T>, midOffset: int, alreadyPartitioned: bool, ghost r': seq<T>)
    requires Chain(s) && Stores(s, r) && y <= |s| && Progress(v, r, x, y, b, n, less)
    requires 1 <= n && lo == s[b] && hi == s[b + n - 1] && 0 <= pivotOffset < n
    modifies s`obj
    ensures Stores(s, r') && Progress(v, r', x, y, b, n, less)
    ensures 0 <= midOffset < n && mid == s[b + midOffset] && SplitAt(r', b, n, b + midOffset, less)
    ensures r'[b + midOffset] == r[b + pivotOffset]
  {
    mid, midOffset, alreadyPartitioned, r' := PartitionList(s, r, lo, hi, n, pivotOffset, less, b);
    SettledPerm(v, r, r', x, y, b, n, less);
  }

  /** The partitioning round: a Hoare partition around the pivot, then the
      smaller side is sorted and the loop goes on with the larger. The two
      sides and the pivot make up the segment, so the segment shrinks; the
      round is balanced when the smaller side holds at least an eighth. */
  method PartitionStep<T(!new)>(ghost s: seq<Node<T>>, ghost v: seq<T>, ghost r: seq<T>, lo: Node<T>, hi: Node<T>,
                                n: int, limit: int, pivotOffset: int, less: (T, T) -> bool,
                                ghost x: int, ghost y: int, ghost b: int)
    returns (lo': Node<T>, hi': Node<T>, n': int, wasBalanced: bool, wasPartitioned: bool,
             ghost b': int, ghost r': seq<T>)
    requires Chain(s) && Stores(s, r) && y <= |s| && Progress(v, r, x, y, b, n, less)
    requires MaxInsertion < n && lo == s[b] && hi == s[b + n - 1] && 0 <= pivotOffset < n && 0 <= limit
    modifies s`obj
    ensures Stores(s, r') && Progress(v, r', x, y, b', n', less)
    ensures 1 <= n' < n && lo' == s[b'] && hi' == s[b' + n' - 1]
    ensures n - n' - 1 <= n' && (wasBalanced <==> n - n' - 1 >= n / 8)
    decreases n, 1
  {
    var mid, midOffset;
    ghost var r1;
    mid, midOffset, wasPartitioned, r1 := PartitionSegment(s, v, r, lo, hi, n, pivotOffset, less, x, y, b);
    var leftLen := midOffset;
    var rightLen := n - midOffset - 1;
    var balanceThreshold := n / 8;
    if leftLen < rightLen {
      wasBalanced := leftLen >= balanceThreshold;
      lo', n', b', r' := LeftThenRight(s, v, r1, lo, mid, n, midOffset, limit, less, x, y, b);
      return lo', hi, n', wasBalanced, wasPartitioned, b', r';
    }
    wasBalanced := rightLen >= balanceThreshold;
    hi', n', r' := RightThenLeft(s, v, r1, hi, mid, n, midOffset, limit, less, x, y, b);
    lo', b' := lo, b;
  }

  /** The rest of a round once the pivot is known: the optimistic partial
      insertion sort when the last partition was balanced, did not move
      anything and the segment looked increasing; the equal-keys round when
      the segment's predecessor is not below the pivot; the partitioning
      round otherwise. */
  method Split<T(!new)>(ghost s: seq<Node<T>>, ghost v: seq<T>, ghost r: seq<T>, lo: Node<T>, hi: Node<T>,
                        n: int, limit: int, pivotOffset: int, hint: Hint, wasBalanced: bool, wasPartitioned: bool,
                        less: (T, T) -> bool, ghost x: int, ghost y: int, ghost b: int)
    returns (done: bool, lo': Node<T>, hi': Node<T>, n': int, wasBalanced': bool, wasPartitioned': bool,
             ghost b': int, ghost r': seq<T>)
    requires Chain(s) && Stores(s, r) && y <= |s| && Progress(v, r, x, y, b, n, less)
    requires MaxInsertion < n && lo == s[b] && hi == s[b + n - 1] && 0 <= pivotOffset < n && 0 <= limit
    modifies s`obj
    ensures Stores(s, r') && Perm(v, r', x, y)
    ensures done ==> (StrictWeakOrder(less) ==> Sorted(r', x, y, less))
    ensures !done ==> Progress(v, r', x, y, b', n', less) && 1 <= n' < n && lo' == s[b'] && hi' == s[b' + n' - 1]
    ensures wasBalanced && wasPartitioned && hint == Increasing && AdjSorted(r, b, b + n, less) ==> done && r' == r
    decreases n, 2
  {
    ghost var r1 := r;
    if wasBalanced && wasPartitioned && hint == Increasing {
      var ok;
      ok, r1 := TryPartial(s, v, r, lo, hi, n, less, x, y, b);
      if ok {
        return true, lo, hi, n, wasBalanced, wasPartitioned, b, r1;
      }
    }
    ChainStep(s, b);
    if lo.prev != null {
      var pivotNode := AdvanceT(s, lo, b, pivotOffset);
      if !less(lo.prev.obj, pivotNode.obj) {
        done, lo', n', b', r' := EqualStep(s, v, r1, lo, hi, n, pivotOffset, less, x, y, b);
        hi', wasBalanced', wasPartitioned' := hi, wasBalanced, wasPartitioned;
        return;
      }
    }
    done := false;
    lo', hi', n', wasBalanced', wasPartitioned', b', r' := PartitionStep(s, v, r1, lo, hi, n, limit, pivotOffset, less, x, y, b);
  }

  /** One round of the driver loop on a segment too long for insertion
      sort, with depth budget left. */
  method Round<T(!new)>(ghost s: seq<Node<T>>, ghost v: seq<T>, ghost r: seq<T>, lo: Node<T>, hi: Node<T>,
                        n: int, limit: int, wasBalanced: bool, wasPartitioned: bool,
                        less: (T, T) -> bool, ghost x: int, ghost y: int, ghost b: int)
    returns (done: bool, lo': Node<T>, hi': Node<T>, n': int, limit': int, wasBalanced': bool, wasPartitioned': bool,
             ghost b': int, ghost r': seq<T>)
    requires Chain(s) && Stores(s, r) && y <= |s| && Progress(v, r, x, y, b, n, less)
    requires MaxInsertion < n && lo == s[b] && hi == s[b + n - 1] && 0 < limit
    modifies s`obj
    ensures Stores(s, r') && Perm(v, r', x, y)
    ensures done ==> (StrictWeakOrder(less) ==> Sorted(r', x, y, less))
    ensures !done ==> Progress(v, r', x, y, b', n', less) && 1 <= n' < n
    ensures !done ==> lo' == s[b'] && hi' == s[b' + n' - 1] && 0 <= limit'
    ensures wasBalanced && wasPartitioned && Sorted(r, b, b + n, less) ==> done && r' == r
    decreases n, 3
  {
    var pivotOffset, hint;
    ghost var r2;
    limit', pivotOffset, hint, r2 := PivotAndHint(s, v, r, lo, hi, n, limit, wasBalanced, less, x, y, b);
    if wasBalanced && Sorted(r, b, b + n, less) {
      SortedIsAdjSorted(r, b, b + n, less);
    }
    done, lo', hi', n', wasBalanced', wasPartitioned', b', r' :=
      Split(s, v, r2, lo, hi, n, limit', pivotOffset, hint, wasBalanced, wasPartitioned, less, x, y, b);
  }

  /** pdqsortListP on the `n0` nodes from `lo0` to `hi0`, with depth budget
      `limit0`: the payloads are rearranged within the segment and, under a
      strict weak ordering, sorted. The segment's predecessor, when it has
      one, must not be above any of its elements. */
  method PdqsortList<T(!new)>(ghost s: seq<Node<T>>, ghost v: seq<T>, lo0: Node<T>, hi0: Node<T>, n0: int,
                              limit0: int, less: (T, T) -> bool, ghost b0: int)
    returns (ghost r: seq<T>)
    requires Chain(s) && Stores(s, v) && 0 <= b0 && 1 <= n0 && b0 + n0 <= |s|
    requires lo0 == s[b0] && hi0 == s[b0 + n0 - 1] && 0 <= limit0
    requires StrictWeakOrder(less) ==> Bounded(v, b0, n0, less)
    modifies s`obj
    ensures Stores(s, r) && Perm(v, r, b0, b0 + n0)
    ensures StrictWeakOrder(less) ==> Sorted(r, b0, b0 + n0, less)
    ensures Sorted(v, b0, b0 + n0, less) && (n0 <= MaxInsertion || 0 < limit0) ==> r == v
    decreases n0, 4
  {
    ghost var x, y := b0, b0 + n0;
    var lo, hi, n, limit := lo0, hi0, n0, limit0;
    ghost var b := b0;
    var wasBalanced, wasPartitioned := true, true;
    r := v;
    SettledStart(v, x, y, less);
    while true
      invariant Chain(s) && Stores(s, r) && y <= |s| && Progress(v, r, x, y, b, n, less)
      invariant 1 <= n && lo == s[b] && hi == s[b + n - 1] && 0 <= limit
      invariant Sorted(v, x, y, less) && (n0 <= MaxInsertion || 0 < limit0) ==>
                  r == v && wasBalanced && wasPartitioned && b == b0 && n == n0 && limit == limit0
      decreases n
    {
      if Sorted(v, x, y, less) && n <= MaxInsertion {
        SortedIsAdjSorted(v, x, y, less);
      }
      if n <= MaxInsertion || limit == 0 {
        r := SortRest(s, v, r, lo, hi, n, limit, less, x, y, b);
        return;
      }
      var done;
      done, lo, hi, n, limit, wasBalanced, wasPartitioned, b, r :=
        Round(s, v, r, lo, hi, n, limit, wasBalanced, wasPartitioned, less, x, y, b);
      if done {
        return;
      }
    }
  }
}
