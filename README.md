# xlist in Dafny

A model of the Go container `xlist`: `XList[T]` is a doubly-linked list. Each node (`xlistObj`) holds a payload, a `next` link, a `prev` link and a boolean mark. The list (`XList`) holds `home` (first node), `end` (last node) and `size`. On top of that sit:
- the CRUD operations of corefunc.go;
- positional lookup (`goToPosition`);
- a cursor (`Iterator`);
- in-place bulk transforms (`Modify`, `ModifyRev`);
- per-node marks;
- four traversals;
- a pattern-defeating quicksort (`PDQSort`) that runs on the nodes themselves and only ever exchanges payloads between them.

The model keeps the source's heap shape:
- `Nodes.Node` is a class with the four fields.
- `XLists.XList` is a class with `home`, `end` and `size`, plus ghost `nodes`, `elems` and `marks`. These are the chain, its payloads and its marks, in list order.
- `XList.Valid()` is the well-formedness every operation keeps:
  - the chain is linked both ways and has no repeated node;
  - `home.prev` and `end.next` are nil;
  - `size` is the chain's length;
  - the list is empty exactly when both ends are nil.

Every state-changing operation is a method with `modifies` clauses. It states its new state as a function of the old one: `Inserted`, `Removed`, `Swapped`, `Modified`, `Found` and `Delivered`, all defined in `ListSpec`. The lemmas there state what those functions mean.

The sort engine mirrors sort-pdq.go function by function, loop by loop:
- Each routine walks the real nodes. It carries a ghost base index `b` and offset so that a node variable is always `s[b + off]`.
- Each routine is proved against ghost payload sequences. A routine rearranges exactly its segment (`Perm`).
- Under a strict weak ordering, a routine leaves its segment sorted, partitioned, reversed or heap-ordered, as its source does.
- The driver's invariant (`Progress`) says that everything outside the working segment is already in its final place.

Modules and files:

| module | file | models |
|---|---|---|
| `Ordering` | ordering.dfy | strict weak orderings, sortedness, rearrangement of a range |
| `Nodes` | nodes.dfy | `xlistObj` and chains of nodes; the link surgery the container does |
| `ListSpec` | list_spec.dfy | sequence functions that specify the container's operations |
| `PdqPrimitives` | pdq_primitives.dfy | `advanceT`, `swapObjs`, `pdqXorshift`, `pdqNextPowerOfTwo` |
| `PdqReverse` | pdq_reverse.dfy | `reverseRangeList` |
| `PdqInsertion` | pdq_insertion.dfy | `insertionSortList` |
| `PdqHeap` | pdq_heap.dfy | `heapSortList`, `siftDownList` |
| `PdqPartial` | pdq_partial.dfy | `partialInsertionSortList` |
| `PdqPartition` | pdq_partition.dfy | `partitionList`, `partitionEqualList` |
| `PdqPivot` | pdq_pivot.dfy | `choosePivotList`, `medianList3`, `order2List`, `medianAdjacentList` |
| `PdqBreak` | pdq_break.dfy | `breakPatternsList` |
| `PdqDriver` | pdq_driver.dfy | `pdqsortListP` |
| `XLists` | xlist.dfy | `XList`, `New`, corefunc.go, internal.go, marking.go, bulk.go, range.go, `PDQSort`, `Sort` |
| `Iterators` | iterator.dfy | `Iterator` and its methods |

Inputs the program gets from outside become parameters:
- The comparator is a pure `less: (T, T) -> bool`.
- `Find`'s test, `Modify`'s change function and the traversals' `yield` are pure functions as well.
- Sortedness results are stated under `StrictWeakOrder(less)`. Permutation and structure results hold for any `less`, as in the source, which never relinks nodes while sorting.

Where the code differs from the written design of the sort, the model follows the code:
- Each pattern-breaking round lowers the depth budget by one (sort-pdq.go:110), rather than halving it.
- The three exchanged nodes are the node before the middle and the two after it (sort-pdq.go:386-397), rather than nodes near the quarter points.
- The equal-keys path can end in a nil dereference (see Findings), rather than always returning a shorter segment.

## Model

| member | source | states |
|---|---|---|
| Ordering.AdjSortedIsSorted | xlist_test.go:961-968 | under a strict weak ordering, the adjacent-pairs check of the tests implies that no element must precede any earlier one |
| Ordering.SortedIsAdjSorted | xlist_test.go:961-968 | full order implies the tests' adjacent order for any relation |
| Ordering.SortedSlice | sort-pdq.go:403-436 | a sorted range, taken out as the sequence choosePivotList samples, is sorted |
| Ordering.Swapped | sort-pdq.go:80-82 | exchanging two positions: those two trade values, every other position keeps its value |
| Ordering.Reversed | sort-pdq.go:463-470 | the range read backwards, positions outside it unchanged |
| Ordering.ReversedAt | sort-pdq.go:116-117 | after a range of `n` elements is reversed, the element that was at offset `k` sits at offset `(n - 1) - k` |
| Ordering.PermSwap | sort-pdq.go:80-82 | an exchange inside a range only rearranges that range |
| Ordering.PermSlice | sort-pdq.go:80-82 | a rearranged range holds the same multiset of payloads as before |
| PdqPrimitives.AdvanceT | sort-pdq.go:72-77 | `steps` forward hops from the node at `from` reach the node at `from + steps`, null just past the end |
| PdqPrimitives.SwapObjs | sort-pdq.go:80-82 | the chain's payloads become `Swapped(v, i, j)`; links and marks are not in its frame |
| PdqPrimitives.XorshiftNonZero | sort-pdq.go:28-33 | a non-zero xorshift64 state never becomes zero |
| PdqPrimitives.Xorshift.Next | sort-pdq.go:28-33 | the state advances by one xorshift64 step (13, 7, 17) and is returned |
| PdqPrimitives.BitLen | sort-pdq.go:35-37 | `bits.Len`: the number of binary digits, `2^(r-1) <= x < 2^r` |
| PdqPrimitives.NextPowerOfTwo | sort-pdq.go:35-37 | a power of two above `length` and at most `2 * length` |
| PdqReverse.MeetTest | sort-pdq.go:465 | the loop test `i != j && i.prev != j` holds exactly while the offsets have not met |
| PdqReverse.ReverseStep | sort-pdq.go:466-468 | one exchange extends the mirrored outer parts by one and moves both cursors inward |
| PdqReverse.ExchangeEnds | sort-pdq.go:466 | exchanging the payloads at the two cursors keeps the segment a rearrangement and extends the mirrored outer parts by one on each side |
| PdqReverse.StepInwards | sort-pdq.go:465-468 | the cursors move to the next and previous node, and the loop test on them holds exactly while the offsets have not met |
| PdqReverse.ReverseRangeList | sort-pdq.go:463-470 | the segment's payloads end up as the segment reversed, nothing else changes |
| PdqReverse.ReversedFrom | sort-pdq.go:463-470 | mirrored up to the meeting point means the whole segment is reversed |
| PdqInsertion.InsertingStep | sort-pdq.go:189-191 | an exchange with a predecessor it must precede keeps the inner loop's state, one place further left |
| PdqInsertion.InsertingDone | sort-pdq.go:189-194 | when the inner loop stops, the prefix through the current node is sorted |
| PdqInsertion.SwapWithPrev | sort-pdq.go:190 | one exchange of the inner loop keeps the segment a rearrangement and the inner-loop state |
| PdqInsertion.InsertNode | sort-pdq.go:189-191 | the inner loop extends the sorted prefix by the current node; a node that already follows its predecessor is not exchanged |
| PdqInsertion.InsertionSortList | sort-pdq.go:184-196 | the segment is rearranged and, under an ordering, sorted; an already ordered segment is not touched |
| PdqInsertion.StepForward | sort-pdq.go:188 | from a node short of the last of the segment, `cur.next` is the node at the next offset, still inside the segment |
| PdqHeap.SiftingStep | sort-pdq.go:223-230 | exchanging the hole with its bigger child moves the hole down |
| PdqHeap.SiftingStop | sort-pdq.go:220-228 | with no child to descend to, the heap is whole again |
| PdqHeap.HeapTop | sort-pdq.go:211-214 | the top of a max-heap is not below any element of it |
| PdqHeap.ExtractSwap | sort-pdq.go:212 | moving the top to position `i` grows the sorted tail and leaves a heap with a hole at the top |
| PdqHeap.TailKept | sort-pdq.go:213 | rearranging the heap part keeps the sorted tail and keeps it above the heap |
| PdqHeap.SiftStep | sort-pdq.go:219-230 | one round of siftDownList: done with a heap, or a deeper hole |
| PdqHeap.SiftSwap | sort-pdq.go:229-230 | the exchange of siftDownList: a rearrangement, the hole moves to the child |
| PdqHeap.SiftDownList | sort-pdq.go:217-232 | restores the max-heap over `[root, m)` when it held below `root`; only `[0, m)` is rearranged |
| PdqHeap.CollectNodes | sort-pdq.go:202-207 | the temporary array holds the segment's nodes in order |
| PdqHeap.BuildHeap | sort-pdq.go:208-210 | the sift-downs from the last inner node back to the top make the whole array a max-heap |
| PdqHeap.ExtractStep | sort-pdq.go:212-213 | one extraction shrinks the heap and grows the sorted tail |
| PdqHeap.ExtractAll | sort-pdq.go:211-214 | the extraction loop leaves the segment sorted |
| PdqHeap.HeapSortList | sort-pdq.go:201-215 | the segment is rearranged and, under an ordering, sorted; nodes stay where they are |
| PdqPartial.AtStop | sort-pdq.go:355-358 | the scan's stop test (nil or `hi.next`) holds exactly at the segment's end |
| PdqPartial.CountSegment | sort-pdq.go:348-351 | the counting loop returns the segment's length |
| PdqPartial.ScanSorted | sort-pdq.go:355-357 | the scan stops at the first inversion or at the end, everything passed being in adjacent order |
| PdqPartial.AdjSortedJoin | sort-pdq.go:355-357 | two adjacent-ordered stretches that overlap in one position join |
| PdqPartial.ShiftStart | sort-pdq.go:365 | exchanging the inverted pair starts the shift-left state |
| PdqPartial.ShiftStep | sort-pdq.go:367-369 | one shift-left exchange keeps the state one place further left |
| PdqPartial.ShiftDone | sort-pdq.go:367-369 | when the shift stops, the prefix is in order |
| PdqPartial.ShiftLeftStep | sort-pdq.go:368 | one shift-left exchange as a node operation |
| PdqPartial.ExchangeWithPrev | sort-pdq.go:369 | exchanging a payload that must precede its predecessor keeps the segment a rearrangement and moves the gap of the shift one place left |
| PdqPartial.StepBack | sort-pdq.go:368 | `j.prev` is the node at the previous offset |
| PdqPartial.ShiftLeft | sort-pdq.go:367-369 | the shift-left loop leaves the prefix in adjacent order, never moving before `lo` |
| PdqPartial.ShiftRightStep | sort-pdq.go:372 | one shift-right exchange rearranges only the part after the prefix |
| PdqPartial.ShiftRight | sort-pdq.go:371-373 | the shift-right loop touches nothing before the inversion |
| PdqPartial.AdjSortedKept | sort-pdq.go:371-373 | rearranging after the prefix keeps the prefix's order |
| PdqPartial.SwapBack | sort-pdq.go:365 | the inverted pair is exchanged and the shift state begins |
| PdqPartial.SwapAndShiftLeft | sort-pdq.go:365-369 | exchange and shift-left keep the prefix in order |
| PdqPartial.Repair | sort-pdq.go:365-373 | one repair keeps the segment a rearrangement and the prefix in order |
| PdqPartial.PartialInsertionSortList | sort-pdq.go:341-376 | true only with the segment sorted; an already ordered segment is left as it is and gives true; below 50 elements nothing moves and the answer is whether it was ordered |
| PdqPartition.ScannedIsSplit | sort-pdq.go:260-264 | if the first scans cross, the segment after the pivot was already split around it |
| PdqPartition.NotSplit | sort-pdq.go:260-266 | an element not below the pivot before one below it witnesses that the segment was not split |
| PdqPartition.PlacePivot | sort-pdq.go:260-263 | seating the pivot where the scans met partitions the segment |
| PdqPartition.SwapStep | sort-pdq.go:286-292 | exchanging the two elements where the scans stopped extends both scanned parts |
| PdqPartition.ScanLeft | sort-pdq.go:275-278 | the forward scan passes only left-part elements and stops at a right-part one or past `j` |
| PdqPartition.ScanRight | sort-pdq.go:279-282 | the backward scan passes only right-part elements and stops at a left-part one or at offset 0 |
| PdqPartition.SwapInward | sort-pdq.go:286-292 | one exchange of the loop and the step of both cursors |
| PdqPartition.ExchangeLoop | sort-pdq.go:274-293 | the exchange loop ends with the scans crossed, the segment rearranged and scanned |
| PdqPartition.PivotToFront | sort-pdq.go:239-241 | the pivot moves to the front by one exchange |
| PdqPartition.PlacePivotNode | sort-pdq.go:295-296 | the pivot moves to the meeting point; everything before it is below it, nothing after it is |
| PdqPartition.PartitionRest | sort-pdq.go:266-296 | after a first exchange, the partition completes around the pivot |
| PdqPartition.PartitionFromFront | sort-pdq.go:243-296 | the partition around the pivot, with the flag true exactly when no exchange beyond seating the pivot was needed |
| PdqPartition.PartitionList | sort-pdq.go:237-297 | the returned offset holds the original pivot value; everything before it is below the pivot and nothing after it is; the flag is true exactly for an already split segment, which then only has its pivot moved |
| PdqPartition.EqualFromFront | sort-pdq.go:302-330 | the elements the pivot does not precede come first, then those above it |
| PdqPartition.PartitionEqualList | sort-pdq.go:301-337 | the returned node starts the elements above the pivot and the length counts them; null and 0 when there are none |
| PdqPivot.Order2List | sort-pdq.go:439-445 | the pair comes back in order, counting one exchange exactly when the second must precede the first |
| PdqPivot.MedianList3 | sort-pdq.go:448-454 | one of the three candidates, with between 0 and 3 more exchanges counted |
| PdqPivot.MedianList3IsMedian | sort-pdq.go:448-454 | under an ordering the returned candidate is a median of the three |
| PdqPivot.MedianList3Swaps | sort-pdq.go:448-454 | no exchange exactly for three in order, three exactly for three strictly descending; the middle one in both cases |
| PdqPivot.MedianList3SwapsIrrelevant | sort-pdq.go:448-454 | the counter passed in does not change the median chosen |
| PdqPivot.HintOf | sort-pdq.go:428-435 | Increasing exactly for no exchange, Decreasing exactly for 12 exchanges |
| PdqPivot.MedianAdjacent | sort-pdq.go:458-460 | one of the node and its two neighbours |
| PdqPivot.MedianAdjacentIsMedian | sort-pdq.go:458-460 | under an ordering, a median of the neighbourhood |
| PdqPivot.MedianAdjacentSwapsIrrelevant | sort-pdq.go:458-460 | the counter does not change the median chosen |
| PdqPivot.Samples | sort-pdq.go:411-424 | three candidates inside the segment, each carrying its own payload and offset |
| PdqPivot.ChoosePivot | sort-pdq.go:403-436 | a pivot offset inside the segment |
| PdqPivot.ChoosePivotShort | sort-pdq.go:419-430 | below 8 elements: offset `n/4*2`, hinted Increasing |
| PdqPivot.ChoosePivotMedium | sort-pdq.go:419-435 | 8 to 49 elements: the median of the quarter, half and three-quarter payloads; Increasing exactly when these are in order; never Decreasing |
| PdqPivot.HintOfLong | sort-pdq.go:420-435 | from 50 elements the hint is that of all four median steps' exchanges |
| PdqPivot.ChoosePivotLongIncreasing | sort-pdq.go:420-430 | from 50 elements: Increasing exactly when all three neighbourhoods and the three samples are in order |
| PdqPivot.SortedHintIncreasing | sort-pdq.go:403-436 | on a sorted segment no sample needs an exchange, so the hint is Increasing at every length |
| PdqPivot.ChoosePivotLongDecreasing | sort-pdq.go:420-432 | from 50 elements: Decreasing exactly when all of them are strictly descending |
| PdqPivot.ChoosePivotOfSamples | sort-pdq.go:425 | the pivot of a sampled segment is the median of its three samples |
| PdqPivot.SamplesOfLong | sort-pdq.go:420-424 | from 50 elements each sample is its neighbourhood's median |
| PdqPivot.ChoosePivotIsMedian | sort-pdq.go:419-426 | under an ordering the pivot is a median of the three samples |
| PdqPivot.MedianAdjacentList | sort-pdq.go:458-460 | the node-level median of a neighbourhood equals the payload-level one |
| PdqPivot.SampleList | sort-pdq.go:411-426 | the node-level sampling equals `Samples` |
| PdqPivot.ChoosePivotList | sort-pdq.go:403-436 | the node-level choice equals `ChoosePivot` on the segment's payloads |
| PdqBreak.PatternOffset | sort-pdq.go:389-392 | each drawn offset, masked below the power of two and folded once, lies inside the segment |
| PdqBreak.Center | sort-pdq.go:386 | the centre node and the two after it lie inside a segment of at least 8 |
| PdqBreak.Offsets | sort-pdq.go:388-393 | the three offsets reached, in draw order |
| PdqBreak.BrokenPerm | sort-pdq.go:388-398 | the three exchanges only rearrange the segment |
| PdqBreak.BrokenNext | sort-pdq.go:393-397 | each round adds one exchange of the cursor node with the drawn node |
| PdqBreak.DrawOffset | sort-pdq.go:389-392 | one draw advances the generator once and yields that round's offset |
| PdqBreak.SwapAround | sort-pdq.go:393-397 | one exchange, and the cursor moves on only in the first two rounds |
| PdqBreak.BreakStep | sort-pdq.go:388-398 | one round of the loop keeps generator, cursor and payloads in step |
| PdqBreak.BreakPatternsList | sort-pdq.go:379-399 | below 8 nothing changes; otherwise exactly the three exchanges, a rearrangement of the segment |
| PdqDriver.SettledStart | sort-pdq.go:91-96 | the driver's invariant holds on entry |
| PdqDriver.PermOutside | sort-pdq.go:80-82 | outside a rearranged range nothing moves |
| PdqDriver.SettledPerm | sort-pdq.go:97-160 | rearranging the working segment keeps the driver's invariant |
| PdqDriver.SettledSorted | sort-pdq.go:97-101 | a sorted working segment completes the whole range |
| PdqDriver.SettleLeft | sort-pdq.go:145-151 | after the smaller side before the pivot is sorted, only the side after it remains |
| PdqDriver.SettleRight | sort-pdq.go:152-159 | after the smaller side after the pivot is sorted, only the side before it remains |
| PdqDriver.SettleEqual | sort-pdq.go:127-135 | after the equal-keys partition only the elements above the pivot remain |
| PdqDriver.SortRest | sort-pdq.go:98-106 | the fallback sorts finish the range; a short segment already in order is not touched |
| PdqDriver.BreakIfUnbalanced | sort-pdq.go:108-111 | after an unbalanced round the patterns are broken and the budget drops by one |
| PdqDriver.ReverseSegment | sort-pdq.go:116-117 | the segment is reversed and the remapped offset `(n - 1) - pivotOffset` names the same pivot value |
| PdqDriver.ReverseForHint | sort-pdq.go:115-119 | on a Decreasing hint the segment is reversed, the remapped offset `n-1-pivotOffset` names the same pivot value and the hint becomes Increasing; any other hint changes nothing; the driver invariant is kept |
| PdqDriver.PivotAndHint | sort-pdq.go:108-119 | after an unbalanced round the patterns are broken and the limit drops by one; the pivot offset lies inside the segment; the hint is never Decreasing afterwards; the driver invariant is kept; after a balanced round a segment already in order is not touched and is hinted Increasing |
| PdqDriver.PivotChoice | sort-pdq.go:113 | the pivot offset lies inside the segment; a segment already in order is hinted Increasing |
| PdqDriver.TryPartial | sort-pdq.go:121-125 | the optimistic round, which finishes the range only when sorted; an ordered segment always finishes, untouched |
| PdqDriver.EqualStep | sort-pdq.go:127-135 | the equal-keys round of the corrected driver: either finishes the range or leaves a strictly shorter working segment |
| PdqDriver.PartitionSegment | sort-pdq.go:138-139 | the partition keeps the driver's invariant and splits the segment at the pivot |
| PdqDriver.LeftThenRight | sort-pdq.go:145-151 | the side before the pivot is sorted by a recursive call; the loop goes on after it |
| PdqDriver.RightThenLeft | sort-pdq.go:152-159 | the side after the pivot is sorted by a recursive call; the loop goes on before it |
| PdqDriver.PartitionStep | sort-pdq.go:138-159 | each round leaves `leftLen + rightLen + 1 == n`, continues on the larger side, which is strictly shorter, and is balanced exactly when the smaller side holds at least `n/8` |
| PdqDriver.Split | sort-pdq.go:127-159 | corrected (the equal-keys round finishes when nothing is above the pivot, see Findings; as written: `EqualRoundAsWritten`): the equal-keys or Hoare round keeps the invariant or finishes; after a balanced, partitioned round an ordered segment hinted ascending finishes untouched |
| PdqDriver.Round | sort-pdq.go:103-159 | corrected, as `Split`: one loop round keeps the invariant with a shorter segment, or finishes sorted; after a balanced, partitioned round a sorted segment finishes untouched |
| PdqDriver.PdqsortList | sort-pdq.go:91-161 | corrected, as `Split`: the segment is rearranged and, under an ordering, sorted; a sorted segment that is short or has depth budget left is unchanged |
| PdqDriver.AllEqualLeavesNothing | sort-pdq.go:333-335 | a segment with nothing above its pivot makes partitionEqualList return length 0 |
| PdqDriver.FivesFirstChoices | sort-pdq.go:113-141 | fourteen 5s and a 0 under `<`: pivot offset 6 hinted ascending, the partial insertion sort gives up, the segment is not already split |
| PdqDriver.FivesFirstPartition | sort-pdq.go:139-155 | any result partitionList's contract allows there is `[0]` and fourteen 5s with the pivot at offset 1, a balanced split |
| PdqDriver.ThirteenFives | sort-pdq.go:127-135 | on that result, the thirteen 5s after the pivot enter the equal-keys path with nothing above their pivot |
| PdqDriver.EqualRoundAsWritten | sort-pdq.go:131-134 | as written, such a segment becomes a null `lo` with `n == 0` that insertionSortList dereferences |
| Nodes.Node.constructor | corefunc.go:114-116 | a fresh node holding the payload, unlinked and unmarked |
| Nodes.DistinctAt | xlist.go:41-47 | different positions of a chain hold different nodes |
| Nodes.ChainStep | xlist.go:41-47 | from the node at `k`, `next` and `prev` reach positions `k+1` and `k-1`, or nil at the ends |
| Nodes.NextIffPrev | xlist.go:41-43 | `a.next == b` exactly when `b.prev == a` |
| Nodes.SameNodeSameIndex | xlist.go:41-47 | a node has one position in its chain |
| Nodes.LinkBefore | corefunc.go:227-258 | linking a new node in front of the node at `pos` gives the chain with it inserted |
| Nodes.LinkLast | corefunc.go:127-129 | linking after the last node gives the chain extended by it |
| Nodes.Unlink | corefunc.go:316-338 | bypassing the node at `pos` gives the chain without it |
| Nodes.LinkRun | corefunc.go:381-383 | joining two disjoint chains end to start gives their concatenation |
| Nodes.SpliceBefore | corefunc.go:441-463 | linking a disjoint chain in front of the node at `pos` gives the chain with it spliced in |
| Nodes.SetObj | bulk.go:38 | writing one node's payload changes that payload only |
| Nodes.SetMark | marking.go:9 | writing one node's mark changes that mark only |
| Nodes.ChainInsert | corefunc.go:227-258 | the links after an insertion form a chain |
| Nodes.ChainRemove | corefunc.go:316-338 | the links after a removal form a chain |
| Nodes.ChainJoin | corefunc.go:381-383 | the links after a join form a chain |
| Nodes.ChainSplice | corefunc.go:441-463 | the links after a splice form a chain |
| ListSpec.Inserted | corefunc.go:221-260 | objects placed in order before position `pos`, everything else kept in order |
| ListSpec.Removed | corefunc.go:316-338 | one element taken out, the later ones moving down |
| ListSpec.InsertAtEndAppends | corefunc.go:215-218 | inserting at `size` is appending |
| ListSpec.RemoveUndoesInsert | corefunc.go:302-339 | removing an element just inserted gives back the original |
| ListSpec.InsertUndoesRemove | corefunc.go:207-263 | re-inserting a removed element at its position gives back the original |
| ListSpec.InsertedTwice | corefunc.go:221-260 | inserting objects one after another is inserting them at once |
| ListSpec.Unset | corefunc.go:114-116 | the marks of fresh nodes are all false |
| ListSpec.UnsetConcat | corefunc.go:114-116 | unset marks concatenate |
| ListSpec.Indexed | range.go:27-36 | the (index, payload) pairs of a list in order |
| ListSpec.Modified | bulk.go:37-41 | each payload becomes `change(i, v_i)` |
| ListSpec.IncrementTimes | xlist_test.go:1016-1049 | `n` rounds of adding one raise every element by `n` |
| ListSpec.ModifiedTimesAdd | xlist_test.go:1040-1041 | `b` rounds of a change after `a` rounds of it are `a + b` rounds |
| XLists.ModifyBothWays | xlist_test.go:1016-1049 | N rounds of `Modify` and then N of `ModifyRev`, each adding one, keep the nodes and raise every payload by 2N |
| XLists.DirChanges | xlist_test.go:1016-1025 | N rounds of `Modify` with the same change keep the nodes and apply the change N times over |
| XLists.RevChanges | xlist_test.go:1027-1036 | N rounds of `ModifyRev` with the same change keep the nodes and apply the change N times over |
| ListSpec.FoundStep | bulk.go:17-22 | each payload looked at is added exactly when the test accepts it at its index |
| ListSpec.FoundMeans | bulk.go:7-8 | nothing is found that is not in the list with an accepting index, and every accepted payload is found |
| ListSpec.FoundAll | bulk.go:7-8 | a test accepting everything finds the whole list |
| ListSpec.DeliveredPrefix | range.go:30-36 | a traversal hands over a prefix; it stops early only right after a false answer |
| ListSpec.DeliveredAll | range.go:30-36 | when `yield` answers true throughout, everything is handed over |
| ListSpec.DeliveredStep | range.go:31-33 | one step: the item is handed over, and the traversal goes on only after true |
| ListSpec.DeliveredAdvance | range.go:31-35 | a traversal partly done goes on after true and ends after false |
| ListSpec.DeliveredEnd | range.go:30 | reaching the end of the chain ends the traversal |
| XLists.AppendShape | corefunc.go:118-129 | linking a new node after the last node: a list with one more element |
| XLists.InsertShape | corefunc.go:227-258 | linking a new node before the node at `pos`: a list with it inserted |
| XLists.RemoveShape | corefunc.go:316-338 | unlinking the node at `pos`: a list without it |
| XLists.JoinShape | corefunc.go:381-384 | joining two non-empty disjoint lists gives their concatenation |
| XLists.SpliceShape | corefunc.go:441-463 | splicing a disjoint list before `pos`: a list with it inserted |
| XLists.CopyLoop | corefunc.go:487-510 | the copy loop: a new list of the payloads from `from` through `to`, or the chain's end, in fresh unmarked nodes; no list when the range is empty |
| XLists.CopyStep | corefunc.go:495-500 | one round of the copy loop appends the next payload |
| XLists.FindLoop | bulk.go:17-22 | the corrected loop of Find: a new list of the accepted payloads in order |
| XLists.FoundRound | bulk.go:18-20 | an accepted payload is appended to those found |
| XLists.FindNeverEnds | bulk.go:17-22 | as written the loop never moves its cursor, so after any number of rounds it is still there and the loop test still holds |
| XLists.MarkChain | marking.go:36-38 | every node of the chain gets the same mark |
| XLists.ModifyChain | bulk.go:34-41 | each payload becomes `change(i, v_i)`; `change` sees `(0, v_0)`, `(1, v_1)`, and so on, in order |
| XLists.ModifyChainRev | bulk.go:52-59 | the same payloads, `change` called from the last index down to 0 |
| XLists.WalkForward | range.go:27-36 | the pairs handed over in order until `yield` says false |
| XLists.WalkBackward | range.go:57-66 | the pairs handed over from the last node back, with indices `size-1` down |
| XLists.WalkValues | range.go:84-92 | the payloads handed over in order until `yield` says false |
| XLists.WalkValuesRev | range.go:111-119 | the payloads handed over from the last node back |
| XLists.XList.ValidMeans | xlist.go:26-47 | `size` counts the nodes; empty exactly when both ends are nil; the ends have no outer neighbour; a one-element list is one unlinked node at both ends |
| XLists.XList.LinksAgree | xlist.go:41-43 | in a well-formed list `a.next == b` exactly when `b.prev == a` |
| XLists.XList.ValidReachable | internal.go:16-22 | following `next` from `home` visits the nodes in order |
| XLists.XList.Empty | xlist.go:77-82 | `New()`: an empty well-formed list |
| XLists.XList.constructor | xlist.go:76-88 | `New(objs...)`: a list holding the objects in argument order in fresh nodes, all marks unset |
| XLists.XList.GoToPosition | internal.go:11-29 | the node `pos` hops after `home`, nil outside `[0, size)`; reads only |
| XLists.XList.At | corefunc.go:19-36 | the payload at `index`, nothing outside the list |
| XLists.XList.LastObject | corefunc.go:72-74 | the last payload, nothing on an empty list |
| XLists.XList.IsEmpty | corefunc.go:46-64 | true exactly for the empty list |
| XLists.XList.Size | corefunc.go:67-69 | the number of elements |
| XLists.XList.Clear | corefunc.go:87-94 | afterwards both ends are nil and `size` is 0 |
| XLists.XList.Set | corefunc.go:98-105 | no objects: no change, marks included; otherwise the list holds exactly the objects in fresh unmarked nodes |
| XLists.XList.AppendNode | corefunc.go:118-129 | one round of Append: one more node at the tail, `home` kept on a non-empty list |
| XLists.XList.Append | corefunc.go:109-132 | the objects follow the old elements in argument order in fresh unmarked nodes; old nodes stay in front; `home` of a non-empty list stays |
| XLists.XList.Contains | corefunc.go:181-203 | false on an empty list, otherwise true exactly when every argument occurs in the list |
| XLists.XList.InsertOne | corefunc.go:227-258 | one new node before position `pos`, becoming `home` when inserted at 0 |
| XLists.XList.InsertStep | corefunc.go:221-260 | one round of Insert's loop: the next object goes after those already inserted |
| XLists.XList.InsertInside | corefunc.go:221-260 | the objects end up, in order, before the element at `pos` |
| XLists.XList.Insert | corefunc.go:207-263 | outside `[0, size]`: `ErrInvalidIndex` and no change; at `size`: appends; otherwise the objects go in order before the element at `pos` |
| XLists.XList.Replace | corefunc.go:267-282 | `ErrElementNotFound` for an empty list or a position with no node; otherwise only that payload changes |
| XLists.XList.ReplaceLast | corefunc.go:285-300 | `ErrElementNotFound` on an empty list; otherwise only the last payload changes |
| XLists.XList.Unchain | corefunc.go:316-338 | removes the node at `pos` and returns its payload; links and ends fixed |
| XLists.XList.DeleteAt | corefunc.go:302-339 | empty list: nothing and no error; bad position: `ErrInvalidIndex`; otherwise the removed payload, the others kept in order |
| XLists.XList.DeleteLast | corefunc.go:341-352 | `ErrElementNotFound` and no change on an empty list; otherwise removes and returns the last payload, dropping the last node and its mark |
| XLists.XList.SwapPayloads | corefunc.go:533-544 | with both positions in range, exactly the two payloads change places; otherwise no change |
| XLists.XList.Add | corefunc.go:356-391 | corrected: a new list holding the receiver's payloads and then `d`'s, in fresh unmarked nodes |
| XLists.XList.AddBoth | corefunc.go:375-390 | corrected last branch: the copy of `d` joined after the copy of the receiver |
| XLists.XList.AddAsWritten | corefunc.go:356-391 | as written, for two non-empty lists: from the last node of the copy of the receiver, one step forward and one back ends at the receiver's own `end` |
| XLists.XList.AddBothAsWritten | corefunc.go:375-390 | as written: the back-link of the copy of `d` goes to the receiver's `end` |
| XLists.XList.CopyBoth | corefunc.go:364-373 | the two copies: fresh lists with fresh nodes, disjoint |
| XLists.XList.Concat | corefunc.go:381-384 | corrected link of the two copies: a well-formed concatenation |
| XLists.XList.ConcatAsWritten | corefunc.go:381-384 | as written: forward link to `d.home`, back-link to the given node, `end` and `size` taken over |
| XLists.XList.Move | corefunc.go:396-402 | corrected (the empty-receiver tail sets `home`, see Findings; as written: `MoveToEndAsWritten`): nothing for a nil or empty `d`; otherwise `d`'s nodes follow the receiver's and `d` is left empty |
| XLists.XList.MoveAtPos | corefunc.go:406-464 | corrected (the tail and mid-list branches, see Findings; as written: `MoveToEndAsWritten`, `MoveInsideAsWritten`): empty `d`: no change; `pos` outside `[0, size]`: `ErrInvalidIndex` and no change; otherwise `d`'s nodes spliced in before `pos` and `d` emptied |
| XLists.XList.MoveToEnd | corefunc.go:424-439 | corrected tail branch: `d`'s nodes follow the receiver's, `d` is left empty, and an empty receiver gets `d`'s `home` |
| XLists.XList.MoveInside | corefunc.go:441-463 | corrected mid-list branch: `d`'s nodes spliced in before `pos`, `home` updated at 0, `size` adds `d.size` |
| XLists.XList.MoveToEndAsWritten | corefunc.go:424-436 | as written, on an empty receiver: `home` nil while `end` is not and `size` is positive |
| XLists.XList.MoveInsideAsWritten | corefunc.go:441-463 | as written: the node at `pos` becomes its own predecessor, `d`'s last node stays unlinked, `home` and `size` are unchanged |
| XLists.XList.Copy | corefunc.go:468-474 | a new list with the same payloads in fresh unmarked nodes |
| XLists.XList.CopyRange | corefunc.go:476-511 | `from..to` in order in a new list, `ErrInvalidIndex` unless `0 <= from <= to < size` |
| XLists.XList.Find | bulk.go:9-25 | corrected: a new list of the payloads the test accepts with their index, in order; empty for an empty list |
| XLists.XList.FindAsWrittenLoops | bulk.go:10-22 | as written on a non-empty list: every round leaves the cursor on `home`, so the loop does not end |
| XLists.XList.Swap | corefunc.go:514-529 | an index out of range: `ErrInvalidIndex` and no change; otherwise the two payloads change places (nothing for `i == j`) |
| XLists.XList.SetMarkAt | marking.go:7-10 | the node at `index`, if any, gets the mark; nothing else changes |
| XLists.XList.MarkAtIndex | marking.go:6-11 | only node `index`, if any, becomes marked; payloads and links unchanged |
| XLists.XList.UnmarkAtIndex | marking.go:14-19 | only node `index`, if any, becomes unmarked; payloads and links unchanged |
| XLists.XList.IsMarkedAtIndex | marking.go:22-29 | the node's mark in range, false outside |
| XLists.XList.MarkAll | marking.go:32-39 | every node marked, nothing else changes |
| XLists.XList.UnmarkAll | marking.go:42-49 | no node marked, nothing else changes |
| XLists.XList.Modify | bulk.go:30-44 | each payload becomes `change(i, v_i)`, called in increasing index order; links and marks unchanged; returns the receiver |
| XLists.XList.ModifyRev | bulk.go:48-62 | the same payloads, called from `size-1` down to 0; returns the receiver |
| XLists.XList.ForwardPtr | range.go:22-38 | the pairs `(i, v_i)` from the first node on, until `yield` says false |
| XLists.XList.BackwardPtr | range.go:52-68 | the pairs from the last node back, indices `size-1` down |
| XLists.XList.Values | range.go:79-94 | the payloads in order, until `yield` says false |
| XLists.XList.ValuesRev | range.go:106-121 | the payloads in reverse order, until `yield` says false |
| XLists.XList.PDQSort | sort-pdq.go:45-69 | corrected, as `PdqsortList`: only payloads move: same nodes, links, marks and `size`; same multiset; fewer than 2 elements unchanged; sorted under an ordering; an already sorted list unchanged |
| XLists.XList.Sort | sorting.go:11-20 | corrected, as `PDQSort`: only payloads move: same nodes, links, marks and `size`; same multiset; sorted under an ordering; fewer than 2 elements or an already sorted list unchanged |
| Iterators.Defaulted | iterator.go:46-54 | a bound of -1 takes its default, any other bound stays |
| Iterators.Iterator.constructor | iterator.go:12-23 | unpositioned on its list; one bound sets `index` and `start`, two or more also set `finish`; without bounds all three are -1 |
| Iterators.Iterator.Reset | iterator.go:27-44 | unpositioned; `start`/`finish` from the arguments, -1 by default |
| Iterators.Iterator.SetInitial | iterator.go:46-54 | default bounds become 0 and `size-1` |
| Iterators.Iterator.SetInitialForward | iterator.go:55-62 | positioned at `start` when a node is there |
| Iterators.Iterator.SetInitialBackward | iterator.go:63-70 | positioned at `finish` when a node is there |
| Iterators.Iterator.SetIndex | iterator.go:73-86 | outside the range or the list: nothing, no move; otherwise positioned there with its payload |
| Iterators.Iterator.SetFirst | iterator.go:90-110 | positioned at `start` with its payload, or nothing without a node there |
| Iterators.Iterator.SetLast | iterator.go:114-134 | positioned at `finish` with its payload, or nothing without a node there |
| Iterators.Iterator.Index | iterator.go:137-142 | -1 while unpositioned, otherwise the cursor's position |
| Iterators.Iterator.Value | iterator.go:145-152 | nothing while unpositioned, otherwise the payload under the cursor |
| Iterators.Iterator.Next | iterator.go:154-169 | the first call positions at `start`; later calls move one forward unless at `finish` or the last node |
| Iterators.Iterator.Prev | iterator.go:171-186 | the first call positions at `finish`; later calls move one back unless at `start` or the first node |
| Iterators.Iterator.NextValue | iterator.go:190-216 | corrected: as Next, also giving the payload reached, and never past `finish` |
| Iterators.Iterator.NextValueAsWritten | iterator.go:190-216 | as written: from index 0 with `finish == 0` it still moves to index 1, past `finish` |
| Iterators.Iterator.PrevValue | iterator.go:220-239 | corrected: as Prev, also giving the payload reached, with `index` set on the first call |
| Iterators.Iterator.PrevValueAsWritten | iterator.go:220-239 | as written: on a fresh iterator over a non-empty list it returns nothing and leaves the cursor on `end` while `index` does not name that node |

## Left out

- Locking: every `sync.RWMutex` call. Each operation is modelled as one sequential step.
- Parallel sorting: goroutines, the `atomic.Int32` worker counter, `WaitGroup` and `runtime.GOMAXPROCS`. `spawnOrRun` is a direct recursive call, because the segments it hands out are disjoint.
- PDQSort's size read before taking the lock: a race, not sequential behaviour.
- Go's 64-bit overflow of `int` indices and sizes: integers are unbounded. The generator's `uint64` arithmetic is modelled exactly as `bv64`.
- `AppendUnique`: it depends on `json.Marshal` and `sha256`, which are library code.
- `LastObjectPtr`: it depends on `reflect` and panics.
- `AtPtr`: the same as `At` with the flag dropped.
- `Slice`: integrations.go is not part of this model. Its loop never advances its cursor, exactly as Find's does.
- The declarations `sortContext`, `indexPair` and `sortIndexingFromSize`: nothing uses them.
- CopyRange reads a field `shallowCopy` that `XList` does not declare, and both of its branches append the same value. The model has the one behaviour.
- Nil payloads: payloads are values of `T`. No modelled operation can store nil, so `Values` and `ValuesRev` never skip a node.
- The callbacks (`compare`, Find's test, `change`, `yield`) are pure functions. `Modify`'s calls to `change` are recorded as a ghost sequence of arguments.
- The Seq2 traversals' `yield(i, p)` takes one pair.
- Iterators.Iterator: its methods require the iterator to be positioned on its list. They do not follow the list through later mutations of it.
- XLists.XList.Move: requires `d != this` and no node shared between the two lists. The source does not guard against either.
- XLists.XList.MoveAtPos: requires the same of `d`. Its `ErrElementNotFound` path (corefunc.go:442-445) cannot be reached on a well-formed list.
- XLists.XList.Add: its branch for an empty receiver or an empty `d` is covered by the corrected contract. The as-written contract speaks only of two non-empty lists, where the defect is.
- XLists.XList.Clear: it forgets the chain without unlinking its nodes, as the source does. The old nodes are left as they are.
- The test files, benchmarks and timing comments.

## Findings

| source | as written | input that shows it | evidently intended | confidence | as-written member | corrected member |
|---|---|---|---|---|---|---|
| sort-pdq.go:131-134 | the equal-keys round takes `(nil, 0)` from partitionEqualList as the new segment; the next round calls `insertionSortList(nil, hi)`, which reads `lo.next` (sort-pdq.go:98-99, 188) | `PDQSort` with `<` on fourteen 5s followed by a 0 | a segment with nothing above the pivot is finished | not executed | PdqDriver.EqualRoundAsWritten, PdqDriver.FivesFirstChoices, PdqDriver.FivesFirstPartition, PdqDriver.ThirteenFives, PdqDriver.AllEqualLeavesNothing | PdqDriver.EqualStep |
| corefunc.go:381-383 | the copy of `d` is linked back to the receiver's own `end`, not to the copy's last node | `New(1).Add(New(2))`: the second node's `prev` is the receiver's node | a well-formed concatenation of the two copies | not executed | XLists.XList.AddAsWritten, XLists.XList.AddBothAsWritten | XLists.XList.Add, XLists.XList.AddBoth |
| corefunc.go:424-436 | the tail branch on an empty receiver sets `end` and `size` but leaves `home` nil | `New[int]().Move(New(1))` | the receiver gets `d`'s `home` | not executed | XLists.XList.MoveToEndAsWritten | XLists.XList.MoveToEnd |
| corefunc.go:441-463 | the mid-list branch makes the node at `pos` its own predecessor, never links `d`'s last node forward, and leaves `home` and `size` unchanged | `New(1, 2).MoveAtPos(1, New(3))` | `d`'s nodes spliced in before `pos` | not executed | XLists.XList.MoveInsideAsWritten | XLists.XList.MoveInside |
| bulk.go:17-22 | Find's loop never advances `lobj`, so on a non-empty list it does not end | `New(1).Find(func(int, int) bool { return true })` | one round per node | not executed | XLists.XList.FindAsWrittenLoops, XLists.FindNeverEnds | XLists.XList.Find, XLists.FindLoop |
| iterator.go:204 | NextValue compares `index` with `finish` only when `index > 0`, so from index 0 it steps past `finish` | `Iterator(0, 0)` on a two-element list: `NextValue()` twice gives the second element | no step past `finish` | not executed | Iterators.Iterator.NextValueAsWritten | Iterators.Iterator.NextValue |
| iterator.go:223-225 | PrevValue on an unpositioned iterator moves to `end` without setting `index` and returns nothing | `Iterator()` on a non-empty list, then `PrevValue()` | position at `finish` as Prev does | not executed | Iterators.Iterator.PrevValueAsWritten | Iterators.Iterator.PrevValue |
