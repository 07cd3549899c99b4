/** The link-walking primitives of the list PDQSort (sort-pdq.go): walking a
    node forward by a number of steps, exchanging two payloads, the xorshift
    generator used to break patterns and the power-of-two arithmetic behind it.
    Every position is a node paired with its index in the ghost chain `s`. */
module PdqPrimitives {
  import opened Nodes
  import opened Ordering

  /** advanceT: walks `steps` forward links from the node at position `from`.
      The walk may end just past the last node (null), never further. */
  method AdvanceT<T>(ghost s: seq<Node<T>>, node: Node<T>, ghost from: int, steps: int)
    returns (r: Node?<T>)
    requires Chain(s) && 0 <= from < |s| && node == s[from]
    requires 0 <= steps && from + steps <= |s|
    ensures r == NodeAt(s, from + steps)
  {
    var cur: Node?<T> := node;
    var i := 0;
    while i < steps
      invariant 0 <= i <= steps
      invariant cur == NodeAt(s, from + i)
    {
      ChainStep(s, from + i);
      cur := cur.next;
      i := i + 1;
    }
    r := cur;
  }

  /** swapObjs: exchanges the payloads of the nodes at positions `i` and `j`;
      links and marks stay where they are. `v` is the chain's payloads before. */
  method SwapObjs<T>(ghost s: seq<Node<T>>, ghost v: seq<T>, a: Node<T>, b: Node<T>, ghost i: int, ghost j: int)
    requires Distinct(s) && Stores(s, v) && 0 <= i < |s| && 0 <= j < |s| && a == s[i] && b == s[j]
    modifies a`obj, b`obj
    ensures Stores(s, Swapped(v, i, j))
  {
    a.obj, b.obj := b.obj, a.obj;
    forall k | 0 <= k < |s|
      ensures s[k].obj == Swapped(v, i, j)[k]
    {
      if k != i && k != j {
        DistinctAt(s, k, i);
        DistinctAt(s, k, j);
      } else if i != j {
        DistinctAt(s, i, j);
      }
    }
  }

  /** One step of the xorshift64 generator (shifts 13, 7, 17). */
  function XorshiftStep(x: bv64): bv64 {
    var a := x ^ (x << 13);
    var b := a ^ (a >> 7);
    b ^ (b << 17)
  }

  /** A non-zero state never collapses to zero, the generator's one fixed point. */
  lemma XorshiftNonZero(x: bv64)
    requires x != 0
    ensures XorshiftStep(x) != 0
  {
  }

  /** pdqXorshift: the generator's state is updated in place by Next. */
  class Xorshift {
    var state: bv64

    constructor (seed: bv64)
      ensures state == seed
    {
      state := seed;
    }

    method Next() returns (r: bv64)
      modifies this
      ensures state == XorshiftStep(old(state)) && r == state
    {
      state := XorshiftStep(state);
      r := state;
    }
  }

  function Pow2(k: nat): (r: nat)
    ensures r >= 1
  {
    if k == 0 then 1 else 2 * Pow2(k - 1)
  }

  /** bits.Len: the number of binary digits of `x` (0 for 0). */
  function BitLen(x: nat): (r: nat)
    ensures x < Pow2(r)
    ensures x > 0 ==> r >= 1 && Pow2(r - 1) <= x
    ensures x <= 1 ==> r == x
  {
    if x == 0 then 0 else 1 + BitLen(x / 2)
  }

  /** pdqNextPowerOfTwo: the least power of two above `length`; for a
      positive length it is at most twice the length, so subtracting `length`
      once brings any value below the power back below `length`. */
  function NextPowerOfTwo(length: nat): (r: nat)
    ensures length < r
    ensures length >= 1 ==> r <= 2 * length
    ensures exists k: nat :: r == Pow2(k)
  {
    var k := BitLen(length);
    Pow2(k)
  }
}
