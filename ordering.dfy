/** Orderings and the vocabulary of sorting: what a caller-supplied `less`
    must satisfy for sorting to mean anything, what "sorted" means for a range
    of a sequence, and "permutation of a range" with everything outside it kept. */
module Ordering {

  /** `less(a, b)` means "a must precede b". A strict weak ordering is
      irreflexive, transitive, and its incomparability ("neither precedes the
      other") is transitive too, written here as negative transitivity. */
  ghost predicate StrictWeakOrder<T(!new)>(less: (T, T) -> bool) {
    (forall x :: !less(x, x)) &&
    (forall x, y, z :: less(x, y) && less(y, z) ==> less(x, z)) &&
    (forall x, y, z :: !less(x, y) && !less(y, z) ==> !less(x, z))
  }

  /** No element of `a[x..y]` has a later element that must precede it. */
  ghost predicate Sorted<T>(a: seq<T>, x: int, y: int, less: (T, T) -> bool)
    requires 0 <= x <= y <= |a|
  {
    forall p, q :: x <= p < q < y ==> !less(a[q], a[p])
  }

  /** No adjacent pair of `a[x..y]` is out of order: the order the source's
      tests check. */
  ghost predicate AdjSorted<T>(a: seq<T>, x: int, y: int, less: (T, T) -> bool)
    requires 0 <= x <= y <= |a|
  {
    forall k :: x < k < y ==> !less(a[k], a[k - 1])
  }

  /** Every element of `a[x..y]` may stand before every element of `a[z..w]`. */
  ghost predicate Below<T>(a: seq<T>, x: int, y: int, z: int, w: int, less: (T, T) -> bool)
    requires 0 <= x <= y <= |a| && 0 <= z <= w <= |a|
  {
    forall p, q :: x <= p < y && z <= q < w ==> !less(a[q], a[p])
  }

  /** `b` is `a` with the range `a[x..y]` rearranged and nothing else changed. */
  ghost predicate Perm<T>(a: seq<T>, b: seq<T>, x: int, y: int) {
    |a| == |b| && 0 <= x <= y <= |a| &&
    a[..x] == b[..x] && a[y..] == b[y..] &&
    multiset(a) == multiset(b)
  }

  /** Swapping two positions of a sequence. */
  ghost function Swapped<T>(a: seq<T>, i: int, j: int): (r: seq<T>)
    requires 0 <= i < |a| && 0 <= j < |a|
    ensures |r| == |a| && r[i] == a[j] && r[j] == a[i]
    ensures forall k :: 0 <= k < |a| && k != i && k != j ==> r[k] == a[k]
  {
    a[i := a[j]][j := a[i]]
  }

  /** A sequence read backwards. */
  ghost function Rev<T>(a: seq<T>): (r: seq<T>)
    ensures |r| == |a|
    ensures forall k :: 0 <= k < |a| ==> r[k] == a[|a| - 1 - k]
  {
    if a == [] then [] else Rev(a[1..]) + [a[0]]
  }

  /** `a` with the range `a[x..y]` read backwards. */
  ghost function Reversed<T>(a: seq<T>, x: int, y: int): (r: seq<T>)
    requires 0 <= x <= y <= |a|
    ensures |r| == |a|
    ensures forall k :: x <= k < y ==> r[k] == a[x + y - 1 - k]
    ensures forall k :: 0 <= k < |a| && !(x <= k < y) ==> r[k] == a[k]
  {
    a[..x] + Rev(a[x..y]) + a[y..]
  }

  /** Where the element at offset `k` of the `n` elements from `x` ends up
      when they are reversed. */
  lemma ReversedAt<T>(a: seq<T>, x: int, n: int, k: int)
    requires 0 <= x && 0 <= k < n && x + n <= |a|
    ensures Reversed(a, x, x + n)[x + ((n - 1) - k)] == a[x + k]
  {
  }

  /** Under a strict weak ordering, adjacent order is full order. */
  lemma {:induction false} AdjSortedIsSorted<T(!new)>(a: seq<T>, x: int, y: int, less: (T, T) -> bool)
    requires 0 <= x <= y <= |a| && StrictWeakOrder(less) && AdjSorted(a, x, y, less)
    ensures Sorted(a, x, y, less)
    decreases y - x
  {
    if y - x > 1 {
      assert AdjSorted(a, x, y - 1, less);
      AdjSortedIsSorted(a, x, y - 1, less);
      forall p | x <= p < y - 1
        ensures !less(a[y - 1], a[p])
      {
        assert !less(a[y - 2], a[p]) || p == y - 2;
      }
    }
  }

  /** A sorted range, taken out as a sequence of its own, is sorted. */
  lemma SortedSlice<T>(a: seq<T>, x: int, y: int, less: (T, T) -> bool)
    requires 0 <= x <= y <= |a| && Sorted(a, x, y, less)
    ensures Sorted(a[x..y], 0, y - x, less)
  {
    forall p, q | 0 <= p < q < y - x
      ensures !less(a[x..y][q], a[x..y][p])
    {
      assert a[x..y][q] == a[x + q] && a[x..y][p] == a[x + p];
    }
  }

  /** Full order implies adjacent order (any relation). */
  lemma SortedIsAdjSorted<T>(a: seq<T>, x: int, y: int, less: (T, T) -> bool)
    requires 0 <= x <= y <= |a| && Sorted(a, x, y, less)
    ensures AdjSorted(a, x, y, less)
  {
    forall k | x < k < y ensures !less(a[k], a[k - 1]) {
      assert x <= k - 1 < k < y;
    }
  }

  /** A strict weak ordering is asymmetric. */
  lemma Asymmetric<T(!new)>(less: (T, T) -> bool, u: T, v: T)
    requires StrictWeakOrder(less) && less(u, v)
    ensures !less(v, u)
  {
  }

  lemma PermRefl<T>(a: seq<T>, x: int, y: int)
    requires 0 <= x <= y <= |a|
    ensures Perm(a, a, x, y)
  {
  }

  lemma PermTrans<T>(a: seq<T>, b: seq<T>, c: seq<T>, x: int, y: int)
    requires Perm(a, b, x, y) && Perm(b, c, x, y)
    ensures Perm(a, c, x, y)
  {
  }

  /** A rearrangement of a sub-range is a rearrangement of any range around it. */
  lemma PermWiden<T>(a: seq<T>, b: seq<T>, x: int, y: int, x': int, y': int)
    requires Perm(a, b, x, y) && 0 <= x' <= x && y <= y' <= |a|
    ensures Perm(a, b, x', y')
  {
    assert a[..x'] == a[..x][..x'] == b[..x][..x'] == b[..x'];
    assert a[y'..] == a[y..][y' - y..] == b[y..][y' - y..] == b[y'..];
  }

  /** Exchanging two positions inside `[x, y)` rearranges `[x, y)`. */
  lemma PermSwap<T>(a: seq<T>, i: int, j: int, x: int, y: int)
    requires 0 <= x <= i < y <= |a| && x <= j < y
    ensures Perm(a, Swapped(a, i, j), x, y)
  {
  }

  /** A further exchange inside `[x, y)` keeps a rearrangement of `[x, y)` one. */
  lemma PermThenSwap<T>(a: seq<T>, b: seq<T>, i: int, j: int, x: int, y: int)
    requires Perm(a, b, x, y) && x <= i < y && x <= j < y
    ensures Perm(a, Swapped(b, i, j), x, y)
  {
    PermSwap(b, i, j, x, y);
    PermTrans(a, b, Swapped(b, i, j), x, y);
  }

  /** The elements of a sequence are those of its three parts around `[x, y)`. */
  lemma MultisetParts<T>(a: seq<T>, x: int, y: int)
    requires 0 <= x <= y <= |a|
    ensures multiset(a) == multiset(a[..x]) + multiset(a[x..y]) + multiset(a[y..])
  {
    assert a == a[..x] + a[x..y] + a[y..];
  }

  /** The rearranged range itself holds the same elements as before. */
  lemma PermSlice<T>(a: seq<T>, b: seq<T>, x: int, y: int)
    requires Perm(a, b, x, y)
    ensures multiset(a[x..y]) == multiset(b[x..y])
  {
    MultisetParts(a, x, y);
    MultisetParts(b, x, y);
    assert a[..x] == b[..x];
    assert a[y..] == b[y..];
    forall e ensures multiset(a[x..y])[e] == multiset(b[x..y])[e] {
      assert multiset(a)[e] == multiset(b)[e];
    }
  }

  /** Every element of a rearranged range comes from the original range. */
  lemma PermFrom<T>(a: seq<T>, b: seq<T>, x: int, y: int, k: int)
    requires Perm(a, b, x, y) && x <= k < y
    ensures exists k' :: x <= k' < y && b[k] == a[k']
  {
    PermSlice(a, b, x, y);
    assert b[k] == b[x..y][k - x];
    assert b[k] in multiset(b[x..y]);
    assert b[k] in multiset(a[x..y]);
    assert b[k] in a[x..y];
    var k' :| 0 <= k' < y - x && a[x..y][k'] == b[k];
    assert a[x + k'] == b[k];
  }

  /** Rearranging `[x, y)` keeps a bound that held for all of its elements. */
  lemma PermKeepsLowerBound<T>(a: seq<T>, b: seq<T>, x: int, y: int, c: T, less: (T, T) -> bool)
    requires Perm(a, b, x, y)
    requires forall k :: x <= k < y ==> !less(a[k], c)
    ensures forall k :: x <= k < y ==> !less(b[k], c)
  {
    forall k | x <= k < y ensures !less(b[k], c) {
      PermFrom(a, b, x, y, k);
    }
  }

  lemma PermKeepsUpperBound<T>(a: seq<T>, b: seq<T>, x: int, y: int, c: T, less: (T, T) -> bool)
    requires Perm(a, b, x, y)
    requires forall k :: x <= k < y ==> !less(c, a[k])
    ensures forall k :: x <= k < y ==> !less(c, b[k])
  {
    forall k | x <= k < y ensures !less(c, b[k]) {
      PermFrom(a, b, x, y, k);
    }
  }

  lemma PermKeepsStrictUpper<T>(a: seq<T>, b: seq<T>, x: int, y: int, c: T, less: (T, T) -> bool)
    requires Perm(a, b, x, y)
    requires forall k :: x <= k < y ==> less(a[k], c)
    ensures forall k :: x <= k < y ==> less(b[k], c)
  {
    forall k | x <= k < y ensures less(b[k], c) {
      PermFrom(a, b, x, y, k);
    }
  }

  lemma PermKeepsStrictLower<T>(a: seq<T>, b: seq<T>, x: int, y: int, c: T, less: (T, T) -> bool)
    requires Perm(a, b, x, y)
    requires forall k :: x <= k < y ==> less(c, a[k])
    ensures forall k :: x <= k < y ==> less(c, b[k])
  {
    forall k | x <= k < y ensures less(c, b[k]) {
      PermFrom(a, b, x, y, k);
    }
  }
}
