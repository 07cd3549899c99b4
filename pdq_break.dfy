/** breakPatternsList of the list PDQSort (sort-pdq.go): after an
    unbalanced partition, three payloads around the segment's centre are
    exchanged with payloads at pseudo-random offsets. The offsets depend on
    nothing but the segment's length, through a xorshift generator seeded
    with it. */
module PdqBreak {
  import opened Nodes
  import opened Ordering
  import opened PdqPrimitives

  /** The generator's seed: the segment length as an unsigned 64-bit word. */
  function Seed(n: nat): bv64 {
    (n % 0x1_0000_0000_0000_0000) as bv64
  }

  /** The generator's state after `k` draws from `x`. */
  function Draw(x: bv64, k: nat): bv64 {
    if k == 0 then x else XorshiftStep(Draw(x, k - 1))
  }

  /** The offset the `k`-th exchange (from 0) reaches: the `k+1`-th draw
      below the next power of two, folded once into the segment. */
  function PatternOffset(n: nat, k: nat): (o: int)
    requires n >= 1
    ensures 0 <= o < n
  {
    var other := (Draw(Seed(n), k + 1) as int) % NextPowerOfTwo(n);
    if other >= n then other - n else other
  }

  /** The offset of the centre node the exchanges start from. */
  function Center(n: int): (c: int)
    requires n >= 8
    ensures 0 <= c && c + 2 < n
  {
    n / 4 * 2 - 1
  }

  /** The three offsets breakPatternsList reaches. */
  function Offsets(n: nat): (os: seq<int>)
    requires n >= 1
    ensures |os| == 3 && forall k :: 0 <= k < 3 ==> os[k] == PatternOffset(n, k)
  {
    [PatternOffset(n, 0), PatternOffset(n, 1), PatternOffset(n, 2)]
  }

  /** The payloads after exchanging, for each `k`, the payload `k` places
      after the centre with the one at offset `os[k]`. */
  ghost function Broken<T>(v: seq<T>, b: int, n: int, os: seq<int>): (r: seq<T>)
    requires 8 <= n && 0 <= b && b + n <= |v| && |os| <= 3
    requires forall k :: 0 <= k < |os| ==> 0 <= os[k] < n
    ensures |r| == |v|
  {
    if os == [] then v
    else Swapped(Broken(v, b, n, os[..|os| - 1]), b + Center(n) + |os| - 1, b + os[|os| - 1])
  }

  /** The exchanges rearrange the segment and touch nothing outside it. */
  lemma {:induction false} BrokenPerm<T>(v: seq<T>, b: int, n: int, os: seq<int>)
    requires 8 <= n && 0 <= b && b + n <= |v| && |os| <= 3
    requires forall k :: 0 <= k < |os| ==> 0 <= os[k] < n
    ensures Perm(v, Broken(v, b, n, os), b, b + n)
  {
    if os == [] {
      PermRefl(v, b, b + n);
    } else {
      var prev := Broken(v, b, n, os[..|os| - 1]);
      BrokenPerm(v, b, n, os[..|os| - 1]);
      PermThenSwap(v, prev, b + Center(n) + |os| - 1, b + os[|os| - 1], b, b + n);
    }
  }

  /** Extending the offsets by one adds one exchange. */
  lemma BrokenNext<T>(v: seq<T>, b: int, n: int, os: seq<int>, idx: int)
    requires 8 <= n && 0 <= b && b + n <= |v| && |os| == 3 && 0 <= idx < 3
    requires forall k :: 0 <= k < 3 ==> 0 <= os[k] < n
    ensures Broken(v, b, n, os[..idx + 1]) ==
            Swapped(Broken(v, b, n, os[..idx]), b + Center(n) + idx, b + os[idx])
  {
    assert os[..idx + 1][..idx] == os[..idx];
  }

  /** One draw of breakPatternsList: the next offset, masked to below the
      power of two and folded once into the segment. */
  method DrawOffset(random: Xorshift, modulus: nat, n: nat, ghost idx: nat) returns (other: int)
    requires n >= 1 && modulus == NextPowerOfTwo(n) && random.state == Draw(Seed(n), idx)
    modifies random
    ensures random.state == Draw(Seed(n), idx + 1) && other == PatternOffset(n, idx)
  {
    var x := random.Next();
    other := (x as int) % modulus;
    if other >= n {
      other := other - n;
    }
  }

  /** Which node after the centre the cursor stands on before round `idx`:
      it stops moving after the second round. */
  function Cursor(idx: int): int {
    if idx < 2 then idx else 2
  }

  /** The exchange of one round of breakPatternsList's loop: the payload at
      the cursor (round `idx` from 0) changes places with the one at offset
      `other`; the cursor moves on for the first two rounds. */
  method SwapAround<T>(ghost s: seq<Node<T>>, ghost v: seq<T>, ghost r: seq<T>, ghost os: seq<int>, lo: Node<T>,
                       cur: Node<T>, idx: int, other: int, n: int, ghost b: int)
    returns (cur': Node<T>, ghost r': seq<T>)
    requires Chain(s) && Stores(s, r) && |v| == |s| && 0 <= b && 8 <= n && b + n <= |s| && lo == s[b]
    requires |os| == 3 && forall k :: 0 <= k < 3 ==> 0 <= os[k] < n
    requires 0 <= idx < 3 && other == os[idx]
    requires cur == s[b + Center(n) + Cursor(idx)] && r == Broken(v, b, n, os[..idx])
    modifies s`obj
    ensures Stores(s, r') && r' == Broken(v, b, n, os[..idx + 1])
    ensures cur' == s[b + Center(n) + Cursor(idx + 1)]
  {
    ChainStep(s, b + Center(n) + idx);
    cur' := cur;
    if cur.next != null && idx < 2 {
      cur' := cur.next;
    }
    var otherNode := AdvanceT(s, lo, b, other);
    BrokenNext(v, b, n, os, idx);
    r' := Swapped(r, b + Center(n) + idx, b + other);
    SwapObjs(s, r, cur, otherNode, b + Center(n) + idx, b + other);
  }

  /** One round of breakPatternsList's loop: a draw, then the exchange. */
  method BreakStep<T>(ghost s: seq<Node<T>>, ghost v: seq<T>, ghost r: seq<T>, ghost os: seq<int>,
                      random: Xorshift, lo: Node<T>, cur: Node<T>, idx: int, modulus: nat, n: int, ghost b: int)
    returns (cur': Node<T>, idx': int, ghost r': seq<T>)
    requires Chain(s) && |v| == |s| && 0 <= b && 8 <= n && b + n <= |s| && lo == s[b]
    requires modulus == NextPowerOfTwo(n) && os == Offsets(n) && 0 <= idx < 3
    requires random.state == Draw(Seed(n), idx)
    requires cur == s[b + Center(n) + Cursor(idx)]
    requires Stores(s, r) && r == Broken(v, b, n, os[..idx])
    modifies s`obj, random
    ensures 0 <= idx' <= 3 && idx' == idx + 1 && random.state == Draw(Seed(n), idx')
    ensures cur' == s[b + Center(n) + Cursor(idx')]
    ensures Stores(s, r') && r' == Broken(v, b, n, os[..idx'])
  {
    var other := DrawOffset(random, modulus, n, idx);
    cur', r' := SwapAround(s, v, r, os, lo, cur, idx, other, n, b);
    idx' := idx + 1;
  }

  /** breakPatternsList on the `n` nodes from `lo`: segments shorter than 8
      are left alone. */
  method BreakPatternsList<T>(ghost s: seq<Node<T>>, ghost v: seq<T>, lo: Node<T>, n: int, ghost b: int)
    returns (ghost r: seq<T>)
    requires Chain(s) && Stores(s, v) && 0 <= b && 1 <= n && b + n <= |s| && lo == s[b]
    modifies s`obj
    ensures Stores(s, r) && Perm(v, r, b, b + n)
    ensures n < 8 ==> r == v
    ensures n >= 8 ==> r == Broken(v, b, n, Offsets(n))
  {
    r := v;
    if n < 8 {
      PermRefl(v, b, b + n);
      return;
    }
    ghost var os := Offsets(n);
    var random := new Xorshift(Seed(n));
    var modulus := NextPowerOfTwo(n);
    var center := AdvanceT(s, lo, b, Center(n));
    var cur: Node<T> := center;
    var idx := 0;
    assert os[..0] == [];
    while idx < 3
      invariant 0 <= idx <= 3 && random.state == Draw(Seed(n), idx)
      invariant cur == s[b + Center(n) + Cursor(idx)]
      invariant Stores(s, r) && r == Broken(v, b, n, os[..idx])
    {
      cur, idx, r := BreakStep(s, v, r, os, random, lo, cur, idx, modulus, n, b);
    }
    assert os[..3] == os;
    BrokenPerm(v, b, n, os);
  }
}
