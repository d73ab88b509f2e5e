# A verified model of `queue.c`

`queue.c` implements a queue of owned C strings on top of the Linux kernel's intrusive circular
doubly linked list (`list.h`). A sentinel `list_head` is the queue handle. Each element is an
`element_t` that holds a `strdup`ed string and a `list_head` linked into the ring. The file
provides creation and release, insertion and removal at both ends, size, deletion of the middle
element, pairwise swap, reversal, and a stable merge sort by `strcmp`. The sort cuts the ring
into a NULL-terminated forward chain, sorts that chain recursively, and relinks it. In ascending
order the result is a ring again. In descending order the code rebuilds every link except
`head->prev`, which keeps naming the node that was last before the sort (see "Findings").

This project models that code in Dafny and proves what each operation does to the sequence of
strings the queue holds.

- **Memory as an arena.** Memory is the class `ListArena.Queue`. Slot 0 is the sentinel and every
  other slot is a node. The fields `next` and `prev` are the link columns, and `value` holds each
  node's string. Allocation appends a slot.
- **The ring invariant.** The ghost sequence `elems` lists the element slots in ring order.
  `Valid()` ties the link columns to it: every element slot appears exactly once, and
  `next`/`prev` link the sentinel, the elements and the sentinel again, in both directions.
  `Contents()` is the queue's abstract value: the strings of `elems`, in order.
- **List primitives.** `list_add`, `list_add_tail`, `list_del` and `list_move` (from `list.h`,
  which is not part of this model) are the arena methods `ListAdd`, `ListAddTail`, `ListDel` and
  `ListMove`, with the usual Linux-list semantics.
- **Operations.** Each `q_*` function is a method on a possibly-null `Queue?`. Each is proved to
  keep `Valid()` and to turn `Contents()` into a stated function of its old value, except the
  descending branch of `q_sort` as written, which leaves `head->prev` stale. `QueueSort.QSort`
  models `q_sort` with `head->prev` set to the old first node in that branch.
  `QueueSort.QSortAsWritten` models the code as it stands and proves which links it leaves right.
- **Sorting.** `merge_two_list` and `merge_recur` work on NULL-terminated chains of slots.
  `Chain(next, h, s)` says that following `next` from `h` visits exactly the slots `s` and then
  NIL. They are proved against the pure functions `Merge` and `MergeSort`. Those functions are
  proved to give a sorted permutation that is stable: for every string, the slots holding it keep
  their relative order. They are also proved to be the only such sequence.
- **String order.** `strcmp` is `StrOrder.Strcmp` on strings without NUL. It is proved
  antisymmetric, transitive and total.

## Model

| member | source | states |
|---|---|---|
| StrOrder.StrcmpFlip | queue.c:291-292 | swapping the two strings negates `strcmp` |
| StrOrder.StrLeqTotal | queue.c:291-292 | for any two strings, one of `strcmp(a,b) <= 0` or `strcmp(b,a) <= 0` holds, so the merge test always picks a side |
| StrOrder.StrcmpZero | queue.c:291-292 | on NUL-free strings, `strcmp` is 0 exactly when the strings are equal |
| StrOrder.StrLeqAntisymmetric | queue.c:291-292 | `a <= b` and `b <= a` under `strcmp` imply `a == b` |
| StrOrder.StrLeqTransitive | queue.c:291-292 | the `strcmp(...) <= 0` order is transitive |
| Sequences.ReverseAt | queue.c:165-175 | element `k` of the reversal is element `n-1-k` of the original |
| Sequences.ReverseReverse | queue.c:165-175 | reversing twice gives back the original sequence |
| Sequences.ReverseMultiset | queue.c:165-175 | reversal keeps every element with its multiplicity |
| Sequences.MoveToFront | queue.c:172-173 | moving the first not-yet-moved node in front of the list gives `[node] + done + rest'` |
| Sequences.ReverseFrontAppend | queue.c:172-173 | that move keeps `Reverse(rest) + done` unchanged, which is the reversal loop's invariant |
| Sequences.SwapPairsAt | queue.c:151-162 | positions `2i` and `2i+1` are exchanged for each complete pair, and a trailing odd element stays in place |
| Sequences.SwapPairsTwice | queue.c:151-162 | swapping pairs twice gives back the original sequence |
| Sequences.SwapPairsMultiset | queue.c:151-162 | swapping pairs keeps every element with its multiplicity |
| Sequences.MoveAfterNext | queue.c:160 | `list_move(node, safe)` on the pair `node, safe` exchanges the two |
| Sequences.SwapPairsFrontAppend | queue.c:157-161 | one exchange keeps `done + SwapPairs(rest)` unchanged, which is the swap loop's invariant |
| Sequences.InsertAtDistinct | queue.c:48 | linking in a node that is not in the ring keeps every slot distinct |
| Sequences.RemoveAtDistinct | queue.c:80 | unlinking a node keeps every slot distinct, and the node is no longer in the ring |
| Sequences.DistinctPreserved | queue.c:202-232 | any rearrangement of distinct slots, such as the sorted order, is distinct |
| MergeSortSpec.ValuesInsertAt | queue.c:48 | inserting a slot inserts its string at the same index of the contents |
| MergeSortSpec.ValuesRemoveAt | queue.c:80 | removing a slot removes its string at the same index of the contents |
| MergeSortSpec.ValuesReverse | queue.c:165-175 | reversing the slots reverses the contents |
| MergeSortSpec.ValuesSwapPairs | queue.c:151-162 | swapping pairs of slots swaps the same pairs of the contents |
| MergeSortSpec.ValuesMultiset | queue.c:202-232 | slots that are a permutation hold the same strings with the same multiplicities |
| MergeSortSpec.MergeMultiset | queue.c:282-305 | the merge holds exactly the nodes of both input chains |
| MergeSortSpec.MergeSorted | queue.c:282-305 | merging two sorted chains gives a sorted chain |
| MergeSortSpec.MergeFilter | queue.c:290-300 | for every string, the merged chain holds the left chain's nodes with that string, then the right chain's, each in its original order: ties go left (`<= 0`), so the merge is stable |
| MergeSortSpec.MergeSortMultiset | queue.c:308-327 | the recursive sort returns a permutation of its chain |
| MergeSortSpec.MergeSortSorted | queue.c:308-327 | the recursive sort returns a sorted chain |
| MergeSortSpec.MergeSortStable | queue.c:308-327 | for every string, the sorted chain holds the nodes with that string in their original order |
| MergeSortSpec.SortedSameRunsUnique | queue.c:308-327 | two sorted orders with the same runs of equal strings are equal, so the stable sort is unique |
| MergeSortSpec.MergeSortIsTheStableSort | queue.c:308-327 | any sorted order of the chain that keeps equal strings in their original order is the one the sort returns |
| MergeSortSpec.SortedValues | queue.c:209-218 | sorted slots hold ascending strings |
| MergeSortSpec.ReverseSortedValues | queue.c:219-231 | reversed sorted slots hold descending strings |
| MergeSortSpec.FilterReverse | queue.c:219-231 | reversal reverses the order of the nodes holding each string |
| MergeSortSpec.ReverseMergeSortRuns | queue.c:219-231 | the descending result holds descending strings, and equal strings come out in reverse of their original order |
| MergeSortSpec.SortOutcome | queue.c:202-232 | ascending sort gives an ascending permutation of the strings, and descending sort a descending one |
| ListArena.RingEmpty | queue.c:72 | the sentinel's `next` is itself exactly when the queue is empty; otherwise `head->next` is the first element and `head->prev` the last |
| ListArena.RingNeighbours | queue.c:48 | in a valid queue, `n->next->prev == n` and `n->prev->next == n` hold for the sentinel and every element |
| ListArena.RingAdd | queue.c:48 | the four stores of `list_add` insert the node into the ring at the chosen position and keep the ring invariant |
| ListArena.RingDel | queue.c:80 | the two stores of `list_del` remove the node from the ring and keep the ring invariant |
| ListArena.WalkFrom | queue.c:108 | following `next` from the `j`-th element reaches the next element, or the sentinel after the last |
| ListArena.Queue.constructor | queue.c:18 | `INIT_LIST_HEAD`: a valid, empty queue |
| ListArena.Queue.IsEmpty | queue.c:72 | `list_empty` is true exactly when the queue holds no element |
| ListArena.Queue.First | queue.c:75 | `list_first_entry` is the first element slot |
| ListArena.Queue.Last | queue.c:90 | `list_last_entry` is the last element slot |
| ListArena.Queue.NewNode | queue.c:40-43 | a fresh node slot holding a copy of the string; the queue's contents are unchanged |
| ListArena.Queue.ListAdd | queue.c:48 | the node is inserted at the chosen position; the contents gain its string there, and the ring invariant holds |
| ListArena.Queue.ListAddTail | queue.c:65 | the node is appended; the contents become `old + [its string]` |
| ListArena.Queue.ListDel | queue.c:80 | the node is removed; the contents lose the string at its index |
| ListArena.Queue.ListMove | queue.c:160 | the node is taken out of its position and reinserted after `at`; the ring invariant holds |
| QueueOps.QNew | queue.c:12-20 | NULL exactly when allocation fails; otherwise a fresh, valid, empty queue |
| QueueOps.QFree | queue.c:23-32 | every element leaves the ring, walking front to back; the queue ends empty and valid |
| QueueOps.QInsertHead | queue.c:35-50 | true exactly when the head is non-NULL and both allocations succeed; then the contents become `[s] + old`; on false the queue is unchanged |
| QueueOps.QInsertTail | queue.c:53-67 | true exactly when the head is non-NULL and both allocations succeed; then the contents become `old + [s]`; on false the queue is unchanged |
| QueueOps.ReadCString | queue.c:78 | the string a NUL-terminated buffer holds is a prefix of the buffer |
| QueueOps.CopyOut | queue.c:76-79 | the first `bufsize-1` bytes of the buffer are those of the string and its terminator, byte `bufsize-1` is NUL, and the rest of the buffer is unchanged |
| QueueOps.CopyOutReadsBack | queue.c:76-79 | the copied-out buffer reads back as the string cut to `bufsize-1` bytes |
| QueueOps.QRemoveHead | queue.c:70-82 | NULL, with no change, on a NULL or empty queue; otherwise it returns the first string, the contents become `old[1..]`, and the buffer gets the bounded copy |
| QueueOps.QRemoveTail | queue.c:85-97 | NULL, with no change, on a NULL or empty queue; otherwise it returns the last string, the contents become `old[..n-1]`, and the buffer gets the bounded copy |
| QueueOps.QSize | queue.c:100-112 | the number of elements; 0 for a NULL or empty queue |
| QueueOps.MiddleNode | queue.c:119-123 | in a non-empty queue the two-cursor scan stops with `slow` at the element of index `(n-1)/2`, the lower middle when `n` is even |
| QueueOps.QDeleteMid | queue.c:115-130 | false, with no change, on a NULL or empty queue; otherwise it removes exactly the element at index `(n-1)/2` and keeps the order of the others |
| QueueOps.WalkFront | queue.c:157 | `node = head->next` is the first element (or the sentinel) and `safe = node->next` the second |
| QueueOps.SwapAt | queue.c:160 | `node` is the first unswapped element and `safe` the one after it once `node` is unlinked |
| QueueOps.SwapMoved | queue.c:159-160 | after `list_move(node, safe)` the order is `done + [safe, node] + tail`, the loop invariant still holds, and the cursor update reaches the next pair |
| QueueOps.SwapBegin | queue.c:157 | at the loop's start nothing is swapped yet, `node` is the first element (or the sentinel) and `safe` the node after it |
| QueueOps.SwapStep | queue.c:158-160 | one iteration, `list_move(node, safe)` and then the cursor update, keeps `done + SwapPairs(rest) == SwapPairs(s)` with `rest` shorter and the string of every slot unchanged |
| QueueOps.SwapEnd | queue.c:158 | when `node` or `safe` is the sentinel at most one element is left, so the slots are `SwapPairs` of the original and the contents `SwapPairs` of the old contents |
| QueueOps.QSwap | queue.c:151-162 | the contents become `SwapPairs(old)`: every complete pair exchanged, a trailing element and short queues untouched |
| QueueOps.ReverseMoved | queue.c:172-173 | after `list_move(node, head)` the order is `[node] + done + tail`, `Reverse(rest) + done` is unchanged, and `safe` is the next node to move |
| QueueOps.ReverseBegin | queue.c:172 | at the loop's start nothing is moved yet, `node` is the first element (or the sentinel) and `safe` the node after it |
| QueueOps.ReverseStep | queue.c:172-173 | one iteration, `list_move(node, head)` and then `node = safe`, keeps `Reverse(rest) + done == Reverse(s)` with `rest` shorter and the string of every slot unchanged |
| QueueOps.ReverseEnd | queue.c:172 | when `node` is back at the sentinel every element has moved, so the slots are the reversal of the original and the contents `Reverse` of the old contents |
| QueueOps.QReverse | queue.c:165-175 | the contents become `Reverse(old)` and the ring invariant holds |
| QueueSort.ChainSplit | queue.c:320-321 | `slow->next = NULL` cuts a chain into two chains, of its first `m` nodes and of the rest |
| QueueSort.RingCut | queue.c:207 | `head->prev->next = NULL` turns the ring into a NULL-terminated chain of the elements from `head->next` |
| QueueSort.MergingTakeLeft | queue.c:291-295 | taking the left node on `strcmp <= 0` extends the merged prefix by it and keeps the merge invariant |
| QueueSort.MergingTakeRight | queue.c:296-300 | otherwise taking the right node extends the merged prefix by it and keeps the merge invariant |
| QueueSort.MergingStep | queue.c:290-300 | one iteration of the merge loop keeps the merge invariant, whichever side it takes |
| QueueSort.MergingDoneLeft | queue.c:303-304 | when the right chain runs out, linking the rest of the left one gives a chain of `Merge(a, b)` |
| QueueSort.MergingDoneRight | queue.c:303-304 | when the left chain runs out, linking the rest of the right one (or NIL) gives a chain of `Merge(a, b)` |
| QueueSort.MergingDone | queue.c:303-304 | after the loop, `h->next = left ? left : right` completes a chain of `Merge(a, b)` from `head.next` |
| QueueSort.MergeTwoList | queue.c:282-305 | the result is a chain of `Merge(a, b)`: both chains interleaved by `strcmp`, left first on ties; NIL when both are empty; no other node's link changes |
| QueueSort.Halves | queue.c:313-321 | the two halves of a distinct chain, and their sorts, share no node |
| QueueSort.MergeRecur | queue.c:308-327 | the result is a chain of `MergeSort(s)`, with the left half taking `ceil(n/2)` nodes; links outside the chain are unchanged |
| QueueSort.CutAndSort | queue.c:206-208 | after the cut and the recursive sort, `head->next` starts a chain of the stable sort of the elements |
| QueueSort.RelinkAscending | queue.c:209-218 | the forward pass rebuilds every `prev` link and closes the ring, so the queue is valid with elements in sorted order |
| QueueSort.AscendingRing | queue.c:211-218 | a chain with `prev` set to each predecessor, closed through the sentinel, satisfies the ring invariant |
| QueueSort.ReversingStart | queue.c:220 | the descending pass's invariant holds at its start |
| QueueSort.ReversingStep | queue.c:221-226 | one iteration points the current node back at the previous one and forward at the next, and keeps the invariant |
| QueueSort.DescendingBegin | queue.c:220 | `c = head`, `n = head->next`, `b = head->next->next` are the descending walk's state before the first node |
| QueueSort.DescendingStep | queue.c:221-226 | one iteration points `n` back at `c` and forward at `b`, moves the three cursors one node on, and keeps the walk's state; `head->prev` and the strings are untouched |
| QueueSort.DescendingEnd | queue.c:221-230 | when `b` is NULL, `n` is the chain's last node, and the three final stores make the reversed chain a ring once `head->prev` names the chain's first node |
| QueueSort.DescendingRing | queue.c:228-230 | after the last node is linked to the sentinel, the links form a ring of the reversed order once `head->prev` names the old first node |
| QueueSort.DescendingLinkAt | queue.c:228-230 | each adjacent pair of the reversed ring is linked both ways |
| QueueSort.RelinkDescending | queue.c:219-231 | the elements become `Reverse` of the sorted order; `head->prev` is left as it was, and the ring is valid once it names the old first node |
| QueueSort.QSort | queue.c:202-232 | no change on a NULL or empty queue; otherwise the queue is valid and holds the stable ascending sort, or its reversal when `descend`: an ascending or descending permutation of the strings |
| QueueSort.QSortAsWritten | queue.c:202-232 | the code as written: the strings of every slot are kept, and the contents are a permutation of the old ones, ascending, or descending when `descend`; the ascending branch (and an empty queue) leaves a valid queue holding the stable sort; the descending branch leaves the reversed sorted order with every link right except `head->prev`, which keeps its old value |
| QueueSort.StaleTailBreaksRing | queue.c:219-231 | when the old `head->prev` is not the node the descending order ends with, the result is not a valid ring |
| QueueSort.AsWrittenDescendingSortOfAB | queue.c:219-231 | for the queue "a", "b" the descending sort as written leaves a broken ring |
| QueueSort.AsWrittenDescendingSortRun | queue.c:202-231 | a queue built by `q_new` and `q_insert_tail` of "a" then "b", sorted descending as written, holds "b", "a" but is not a valid ring |

## Left out

- `q_delete_dup` (queue.c:133-148): the loop never advances `curr`, so it does not terminate whenever two neighbours differ; no terminating model exists.
- `q_ascend` and `q_descend` (queue.c:238-274): the loops never advance `curr` and do not terminate on many inputs. They also remove the neighbour opposite to the one their comments describe.
- `q_reverseK` (queue.c:178-199): `cnt` is reset on every iteration, so as written it leaves the queue as it was.
- `q_merge` (queue.c:278-281): a stub that returns 0.
- Memory management: `malloc`, `strdup` and `free` are not modelled as memory. A failed allocation is a boolean parameter (`mallocOk`, `strdupOk`), and releasing a node only takes it out of the ring. Released and removed slots stay in the arena, and `q_free` empties the queue but does not free the sentinel.
- Update in place: the columns `next`, `prev` and `value` are sequences that each store replaces, not arrays written in place, because allocating a node appends a slot to the arena.
- Pointers are arena indices, so the model has no aliasing between queues. `container_of`/`list_entry` are the identity on slots.
- QueueOps.QRemoveHead and QueueOps.QRemoveTail: `memcpy` always copies `bufsize-1` bytes, so it reads past a short string, and `bufsize == 0` underflows. The model requires `1 <= bufsize` and `bufsize-1 <= |value| + 1` when a buffer is given, and does not model those out-of-bounds cases.
- QueueOps.QSize: the C counter is an `int`; its overflow past 2^31-1 elements is not modelled.
- StrOrder.Strcmp: characters are compared by code point, which is `strcmp`'s unsigned-byte order when every character is a byte. Strings are modelled without encoding.
- ListArena.Queue.ListMove: its contract states the new slot order. The strings follow through `Contents()` and the `Values` lemmas rather than through a `Contents()` clause of its own.
- The recursion depth and stack use of `merge_recur` are not modelled.

## Findings

| source | as written | input that shows it | evidently intended | confidence | as-written member | corrected member |
|---|---|---|---|---|---|---|
| queue.c:219-231 | the descending branch rebuilds every `next` and element `prev` link but never assigns `head->prev`, which still names the tail from before the sort | the queue "a", "b" (slots 1 and 2) sorted with `descend` true: the result is "b", "a", but `head->prev` still names "b" rather than "a", so walking backwards from the sentinel is wrong | `head->prev = ` the old first node of the ascending order, which ends the descending ring | not executed | QueueSort.QSortAsWritten, QueueSort.AsWrittenDescendingSortOfAB, QueueSort.AsWrittenDescendingSortRun | QueueSort.QSort |
