/** reverseRangeList of the list PDQSort (sort-pdq.go): reversing a segment
    by exchanging payloads from both ends inwards. */
module PdqReverse {
  import opened Nodes
  import opened Ordering
  import opened PdqPrimitives

  /** The loop test of reverseRangeList, `i != j && i.prev != j`, holds
      exactly while the two offsets have not met. */
  lemma MeetTest<T>(s: seq<Node<T>>, b: int, iOff: int, jOff: int)
    requires Chain(s) && 0 <= b && 0 <= iOff <= jOff + 1 && 0 <= jOff && b + jOff < |s| && b + iOff < |s|
    ensures (s[b + iOff] != s[b + jOff] && s[b + iOff].prev != s[b + jOff]) <==> iOff < jOff
  {
    ChainStep(s, b + iOff);
    if iOff != jOff {
      DistinctAt(s, b + iOff, b + jOff);
    }
    if b + iOff - 1 >= 0 && iOff - 1 != jOff {
      DistinctAt(s, b + iOff - 1, b + jOff);
    }
  }

  /** The exchanges of reverseRangeList so far: the outer `iOff` nodes on each
      side hold each other's payloads, the middle is untouched. */
  ghost predicate ReversedOutside<T>(v: seq<T>, r: seq<T>, b: int, n: int, iOff: int, jOff: int)
    requires 0 <= b && b + n <= |v| && |r| == |v| && 0 <= iOff <= jOff + 1 <= n
  {
    (forall k :: b <= k < b + iOff ==> r[k] == v[2 * b + n - 1 - k]) &&
    (forall k :: b + jOff < k < b + n ==> r[k] == v[2 * b + n - 1 - k]) &&
    (forall k :: b + iOff <= k <= b + jOff ==> r[k] == v[k])
  }

  /** Exchanging the next two payloads from both ends extends the reversed
      outer parts by one on each side. */
  lemma ReverseSwapKeeps<T>(v: seq<T>, r: seq<T>, b: int, n: int, iOff: int, jOff: int)
    requires 0 <= b && b + n <= |v| && |r| == |v| && 0 <= iOff < jOff && iOff + jOff == n - 1
    requires ReversedOutside(v, r, b, n, iOff, jOff)
    ensures ReversedOutside(v, Swapped(r, b + iOff, b + jOff), b, n, iOff + 1, jOff - 1)
  {
  }

  /** The step of both cursors of reverseRangeList inwards, `i = i.next`
      and `j = j.prev`, and the loop test on the new cursors. */
  method StepInwards<T>(ghost s: seq<Node<T>>, i: Node<T>, j: Node<T>, ghost b: int, ghost iOff: int, ghost jOff: int)
    returns (i': Node<T>, j': Node<T>, ghost iOff': int, ghost jOff': int)
    requires Chain(s) && 0 <= b && 0 <= iOff < jOff && b + jOff < |s| && i == s[b + iOff] && j == s[b + jOff]
    ensures iOff' == iOff + 1 && jOff' == jOff - 1
    ensures i' == s[b + iOff'] && j' == s[b + jOff']
    ensures (i' != j' && i'.prev != j') <==> iOff' < jOff'
  {
    ChainStep(s, b + iOff);
    ChainStep(s, b + jOff);
    i', j' := i.next, j.prev;
    iOff', jOff' := iOff + 1, jOff - 1;
    MeetTest(s, b, iOff', jOff');
  }

  /** The exchange of the payloads of the nodes at offsets `iOff` and `jOff`,
      which extends the reversed outer parts by one on each side. */
  method ExchangeEnds<T>(ghost s: seq<Node<T>>, ghost v: seq<T>, ghost r: seq<T>, i: Node<T>, j: Node<T>,
                         ghost b: int, ghost n: int, ghost iOff: int, ghost jOff: int)
    returns (ghost r': seq<T>)
    requires Chain(s) && Stores(s, r) && 0 <= b && 1 <= n && b + n <= |s| && Perm(v, r, b, b + n)
    requires 0 <= iOff < jOff && iOff + jOff == n - 1 && i == s[b + iOff] && j == s[b + jOff]
    requires ReversedOutside(v, r, b, n, iOff, jOff)
    modifies i`obj, j`obj
    ensures Stores(s, r') && Perm(v, r', b, b + n)
    ensures ReversedOutside(v, r', b, n, iOff + 1, jOff - 1)
  {
    SwapObjs(s, r, i, j, b + iOff, b + jOff);
    PermThenSwap(v, r, b + iOff, b + jOff, b, b + n);
    ReverseSwapKeeps(v, r, b, n, iOff, jOff);
    r' := Swapped(r, b + iOff, b + jOff);
  }

  /** One exchange of reverseRangeList and the step of both cursors inwards. */
  method ReverseStep<T>(ghost s: seq<Node<T>>, ghost v: seq<T>, ghost r: seq<T>, i: Node<T>, j: Node<T>,
                        ghost b: int, ghost n: int, ghost iOff: int, ghost jOff: int)
    returns (i': Node<T>, j': Node<T>, ghost r': seq<T>, ghost iOff': int, ghost jOff': int)
    requires Chain(s) && Stores(s, r) && 0 <= b && 1 <= n && b + n <= |s| && Perm(v, r, b, b + n)
    requires 0 <= iOff < jOff && iOff + jOff == n - 1 && i == s[b + iOff] && j == s[b + jOff]
    requires ReversedOutside(v, r, b, n, iOff, jOff)
    modifies s`obj
    ensures Stores(s, r') && Perm(v, r', b, b + n)
    ensures iOff' == iOff + 1 && jOff' == jOff - 1 && 0 <= iOff' <= jOff' + 1 && iOff' + jOff' == n - 1
    ensures i' == s[b + iOff'] && j' == s[b + jOff']
    ensures (i' != j' && i'.prev != j') <==> iOff' < jOff'
    ensures ReversedOutside(v, r', b, n, iOff', jOff')
  {
    r' := ExchangeEnds(s, v, r, i, j, b, n, iOff, jOff);
    i', j', iOff', jOff' := StepInwards(s, i, j, b, iOff, jOff);
  }

  /** reverseRangeList: reverses the payloads of the `n` nodes from `lo` to
      `hi`; `r` is the payloads afterwards. */
  method ReverseRangeList<T>(ghost s: seq<Node<T>>, ghost v: seq<T>, lo: Node<T>, hi: Node<T>, ghost b: int, ghost n: int)
    returns (ghost r: seq<T>)
    requires Chain(s) && Stores(s, v) && 0 <= b && 1 <= n && b + n <= |s|
    requires lo == s[b] && hi == s[b + n - 1]
    modifies s`obj
    ensures Stores(s, r) && Perm(v, r, b, b + n)
    ensures r == Reversed(v, b, b + n)
  {
    var i, j := lo, hi;
    ghost var iOff, jOff := 0, n - 1;
    r := v;
    PermRefl(v, b, b + n);
    MeetTest(s, b, iOff, jOff);
    while i != j && i.prev != j
      invariant 0 <= iOff <= jOff + 1 && iOff + jOff == n - 1
      invariant i == s[b + iOff] && j == s[b + jOff]
      invariant (i != j && i.prev != j) <==> iOff < jOff
      invariant Stores(s, r) && Perm(v, r, b, b + n)
      invariant ReversedOutside(v, r, b, n, iOff, jOff)
      decreases jOff - iOff
    {
      i, j, r, iOff, jOff := ReverseStep(s, v, r, i, j, b, n, iOff, jOff);
    }
    ReversedFrom(v, r, b, n, iOff, jOff);
  }

  /** A segment whose two ends have been exchanged up to the meeting point
      is the reversed segment. */
  lemma ReversedFrom<T>(v: seq<T>, r: seq<T>, b: int, n: int, iOff: int, jOff: int)
    requires 0 <= b && b + n <= |v| && Perm(v, r, b, b + n)
    requires 0 <= iOff <= jOff + 1 && iOff + jOff == n - 1 && iOff >= jOff
    requires ReversedOutside(v, r, b, n, iOff, jOff)
    ensures r == Reversed(v, b, b + n)
  {
    var rv := Reversed(v, b, b + n);
    forall k | 0 <= k < |v| ensures r[k] == rv[k] {
      if k < b {
        assert r[k] == r[..b][k];
      } else if k >= b + n {
        assert r[k] == r[b + n..][k - b - n];
      }
    }
  }
}
