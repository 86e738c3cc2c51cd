# Linked-list containers, modelled in Dafny

The repository has four pointer-based list containers. Each keeps private
state and changes it in place:

- `SLL` (lib/SLL/plain/index.js) is a null-terminated singly-linked list with `head`, `tail` and `size`. Beyond the deque operations it has:
  - delete by handle, search, `toArray`, `reverse` and `concat`;
  - `merge` into a new list, and a top-down `mergeSort`;
  - `cut` and `remove`, which count from the tail;
  - `isPalindrome`, which reverses the second half and restores it;
  - the `middle` getter.
- `SentinelCircularDLL` (lib/DLL/circular-sentinel/index.js) is a doubly-linked ring closed through one sentinel. It has:
  - `push`, `pop`, `unshift` and `shift`;
  - `before`, `after`, `delete`, `makeFirst` and `makeLast`, all taking a node handle and all guarded by `#validateAction`;
  - the searches `forward` and `backward`.
- `SortedDLL` (lib/DLL/sorted-sentinel.js) is a sentinel ring kept in ascending order by `insert`.
- `AdjustedSLL` is a move-to-front list whose `search` relocates the node it finds. It comes in two variants:
  - lib/SLL/adjusted.js, which is null-terminated;
  - lib/SLL/adjusted/index.js, a ring closed through a sentinel.

Each container is a Dafny `class` with the source's fields. Its methods
write the same `next`/`prev` links the source writes, with the same
branches. A ghost sequence `nodes` records the chain in order. `Valid()`
ties the links (and `size`) to `nodes`, and `Values()` is the sequence
that iteration yields.

Every method's contract states:

- the new `nodes` and `Values()` as a function of the old ones, such as `InsertAt`, `RemoveAt`, `MoveToFront`, `Reversed` or `MergeOf`;
- what each returned value means.

Those functions are defined once, in `Seqs` and `Merging`. The lemmas
there prove what the source promises about them:

- `mergeSort` sorts and only reorders;
- `merge` takes this list's value on a tie (`factor <= 0`) and gives a sorted result from sorted inputs;
- ordered insertion keeps the ring sorted, and a following `delete` restores it;
- move-to-front keeps the multiset;
- reversing twice is the identity.

The modules are:

- `Options`: the `Option` type;
- `Seqs`: the value-level specification functions;
- `Nodes`: the node classes, the chain predicates, and the link-rewiring helpers `LinkIn`/`LinkOut` that both doubly-linked rings use;
- `Merging`: merge and merge sort;
- one module per source file: `PlainList`, `CircularSentinelList`, `SortedSentinelList`, `AdjustedList` and `AdjustedRingList`.

Values are `int`, and the comparator is the default `(a, b) => a - b`, so
"`compare(x, y) > 0`" is `x > y`.

## Model

| member | source | states |
|---|---|---|
| PlainList.SLL.constructor | lib/SLL/plain/index.js:6-8 | a new list is empty and valid |
| PlainList.SLL.Size | lib/SLL/plain/index.js:267-269 | the `size` getter equals the number of values |
| PlainList.SLL.Push | lib/SLL/plain/index.js:10-17 | the new node is appended; values become old values + [value] |
| PlainList.SLL.Pop | lib/SLL/plain/index.js:19-34 | null on an empty list; otherwise the last node is returned and the values lose their last element |
| PlainList.SLL.Unshift | lib/SLL/plain/index.js:36-43 | the new node is prepended; values become [value] + old values |
| PlainList.SLL.Shift | lib/SLL/plain/index.js:45-54 | null on an empty list; otherwise the old head is returned with its `next` cleared, and the values lose their first element |
| PlainList.SLL.Prev | lib/SLL/plain/index.js:215-222 | returns null iff the target is not a non-head node; otherwise the node just before it |
| PlainList.SLL.Unlink | lib/SLL/plain/index.js:61-63 | the node after position i leaves the chain and its `next` is cleared; the list stays valid, `tail` included |
| PlainList.SLL.Bypass | lib/SLL/plain/index.js:172-173 | `prev.next = target.next` removes the node after position i, which keeps its `next`; the list stays valid, `tail` included |
| PlainList.SLL.Delete | lib/SLL/plain/index.js:56-66 | true iff the node is in the list; on true, exactly that node is removed and its `next` cleared; on false nothing changes |
| PlainList.SLL.Search | lib/SLL/plain/index.js:68-75 | null iff the value is absent; otherwise the node at the first position holding it |
| PlainList.SLL.ToArray | lib/SLL/plain/index.js:77-85 | a new array whose contents are the values, in order |
| PlainList.SLL.Reverse | lib/SLL/plain/index.js:87-100 | the nodes and values end in reversed order and the list stays valid |
| PlainList.SLL.ReverseSubList | lib/SLL/plain/index.js:204-213 | a chain from `list` becomes the reversed chain, starting at the returned node |
| Seqs.ReversedTwice | lib/SLL/plain/index.js:198-200 | reversing twice gives the sequence back (`isPalindrome` restores the list this way) |
| PlainList.SLL.LinkTo | lib/SLL/plain/index.js:103 | pointing the last node of one chain at the head of another gives the linked concatenation |
| PlainList.SLL.Concat | lib/SLL/plain/index.js:102-109 | corrected `concat`: values become this list's values followed by the other's; the other list becomes empty; both stay valid |
| PlainList.SLL.ConcatAsWritten | lib/SLL/plain/index.js:102-109 | `concat` as written: correct for a non-empty argument; for an empty one, `tail` becomes null and the list is no longer valid |
| PlainList.ConcatEmptyLosesTail | lib/SLL/plain/index.js:102-109 | witness: a one-node list concatenated with an empty list has a node but a null tail |
| PlainList.SLL.Merge | lib/SLL/plain/index.js:111-123 | a new valid list whose values are the merge `MergeOf` of both lists' values (this list's value first on a tie), and whose size is the sum of both sizes |
| PlainList.SLL.MergeNodes | lib/SLL/plain/index.js:244-252 | the two loops build a fresh valid list whose values are the merge of the two chains' values |
| PlainList.SLL.MergeHeads | lib/SLL/plain/index.js:115-119 | the first merge loop stops when one input is used up; what it pushed, followed by the merge of the remainders, is the whole merge |
| PlainList.SLL.TakeSmaller | lib/SLL/plain/index.js:116-118 | one step takes the head of `a` on a tie (`factor <= 0`), else that of `b`, and keeps the merge invariant |
| PlainList.SLL.PushRest | lib/SLL/plain/index.js:120-121 | the leftover chain's values are appended in order |
| Merging.MergeOfSorted | lib/SLL/plain/index.js:111-123 | merging two sorted sequences gives a sorted sequence |
| Merging.MergeOfMultiset | lib/SLL/plain/index.js:111-123 | a merge keeps every value of both inputs with its count |
| PlainList.SLL.MergeSort | lib/SLL/plain/index.js:125-131 | the values become `MergeSortOf` of the old values: sorted, and a permutation of them |
| PlainList.SLL.LastNode | lib/SLL/plain/index.js:127-129 | the walk from the head stops at the last node of the chain |
| PlainList.SLL.SortHalves | lib/SLL/plain/index.js:234-238 | sorting both halves and merging them gives a fresh chain holding the merge of the two halves' merge sorts |
| PlainList.SLL.SortChain | lib/SLL/plain/index.js:224-239 | `#sort` returns a chain whose values are `MergeSortOf` of the input chain's values |
| PlainList.SLL.SplitPoint | lib/SLL/plain/index.js:226-231 | the slow pointer stops at position (n+1)/2 - 1, so the first half gets the extra node |
| PlainList.SLL.Split | lib/SLL/plain/index.js:232-233 | cutting after `slow` leaves two null-terminated chains, the prefix and the rest |
| PlainList.SLL.MergeChains | lib/SLL/plain/index.js:241-253 | `#merge`: null if either chain is empty (the guard as written); otherwise a fresh chain holding the merge |
| Merging.MergeSortOfSorted | lib/SLL/plain/index.js:224-239 | the merge sort's result is sorted |
| Merging.MergeSortOfMultiset | lib/SLL/plain/index.js:224-239 | the merge sort's result is a permutation of its input |
| PlainList.SLL.Clear | lib/SLL/plain/index.js:133-138 | the list becomes empty and valid |
| PlainList.SLL.CutAfter | lib/SLL/plain/index.js:150-151 | the chain ends at `target`: exactly the first `keep` nodes remain and the list is valid |
| PlainList.SLL.Cut | lib/SLL/plain/index.js:140-153 | no change if the list is empty or from <= 0; empty if from >= size; otherwise the last `from` nodes are dropped |
| PlainList.SLL.DropHead | lib/SLL/plain/index.js:167-170 | the list loses its first node and stays valid, `size` included |
| PlainList.SLL.Remove | lib/SLL/plain/index.js:155-176 | removes the n-th node counted from the tail when 1 <= n <= size; otherwise nothing changes |
| PlainList.SLL.FromEnd | lib/SLL/plain/index.js:158-166 | the two-pointer walk finds the n-th node from the tail and its predecessor iff n <= size |
| PlainList.SLL.IsPalindrome | lib/SLL/plain/index.js:178-202 | true iff the values read the same both ways; the list ends exactly as it began |
| PlainList.SLL.CompareHalves | lib/SLL/plain/index.js:180-201 | reversing the second half, comparing and reversing back decides palindromes and restores the links |
| PlainList.SLL.ReverseAndCompare | lib/SLL/plain/index.js:186-199 | reversing the second half, comparing, and reversing it back decides palindromes and leaves the chain linked as before |
| PlainList.SLL.CompareReversed | lib/SLL/plain/index.js:187-197 | comparing the first half with the reversed second half is true iff the values are a palindrome |
| PlainList.SLL.SameValues | lib/SLL/plain/index.js:190-197 | the comparison loop is true iff the two chains agree on their common length |
| PlainList.HalvesCompared | lib/SLL/plain/index.js:186-197 | comparing the first half with the reversed second half decides whether the values are a palindrome |
| Seqs.PalindromeByHalves | lib/SLL/plain/index.js:186-197 | a sequence equals its reverse iff each of the first half equals its mirror element |
| PlainList.SLL.Middle | lib/SLL/plain/index.js:271-280 | null iff the list is empty; otherwise the node at position (n-1)/2 |
| CircularSentinelList.SentinelCircularDLL.constructor | lib/DLL/circular-sentinel/index.js:8-10 | a new ring is empty and valid |
| CircularSentinelList.SentinelCircularDLL.Size | lib/DLL/circular-sentinel/index.js:164-166 | the `size` getter equals the number of values |
| CircularSentinelList.SentinelCircularDLL.Splice | lib/DLL/circular-sentinel/index.js:13-18 | a fresh node linked in between the neighbours of position i puts `value` at position i; the ring stays valid |
| CircularSentinelList.SentinelCircularDLL.Unlink | lib/DLL/circular-sentinel/index.js:75-77 | joining a node's neighbours removes exactly position i and keeps the ring linked; the node keeps its own links |
| CircularSentinelList.SentinelCircularDLL.Relink | lib/DLL/circular-sentinel/index.js:112-116 | a node outside the ring, linked in between the neighbours of position i, lands at position i and the ring stays linked |
| CircularSentinelList.SentinelCircularDLL.Detach | lib/DLL/circular-sentinel/index.js:78-79 | both links of the removed node become null |
| CircularSentinelList.SentinelCircularDLL.Push | lib/DLL/circular-sentinel/index.js:12-20 | the new node goes last; values gain `value` at the end; size grows by one |
| CircularSentinelList.SentinelCircularDLL.Unshift | lib/DLL/circular-sentinel/index.js:33-41 | the new node goes first; values gain `value` at the front |
| CircularSentinelList.SentinelCircularDLL.Pop | lib/DLL/circular-sentinel/index.js:22-31 | None on an empty ring with nothing changed; otherwise the last value, its node unlinked with both links cleared |
| CircularSentinelList.SentinelCircularDLL.Shift | lib/DLL/circular-sentinel/index.js:43-53 | None on an empty ring; otherwise the first value, its node unlinked with both links cleared |
| CircularSentinelList.PushThenPop | lib/DLL/circular-sentinel/index.js:12-31 | push then pop returns the pushed value and leaves the values unchanged (last in, first out) |
| CircularSentinelList.SentinelCircularDLL.ValidateAction | lib/DLL/circular-sentinel/index.js:139-149 | reports EmptyList iff the ring is empty, and otherwise Detached iff the node has a null link |
| CircularSentinelList.SentinelCircularDLL.Before | lib/DLL/circular-sentinel/index.js:55-62 | on a fault nothing changes; otherwise the new node sits immediately before `node`, all other order kept |
| CircularSentinelList.SentinelCircularDLL.After | lib/DLL/circular-sentinel/index.js:64-71 | on a fault nothing changes; otherwise the new node sits immediately after `node`, all other order kept |
| CircularSentinelList.SentinelCircularDLL.Delete | lib/DLL/circular-sentinel/index.js:73-81 | on a fault nothing changes; otherwise exactly `node` is removed and both its links are cleared |
| CircularSentinelList.DeleteTwice | lib/DLL/circular-sentinel/index.js:73-81 | a second delete of the same node returns a fault and changes nothing, so the ring keeps exactly the first delete's result: that node removed and `size` one less |
| Seqs.RemoveInserted | lib/DLL/circular-sentinel/index.js:55-81 | deleting the node `before`/`after` just inserted at its position gives the old values back |
| CircularSentinelList.SentinelCircularDLL.MakeFirst | lib/DLL/circular-sentinel/index.js:105-117 | on a fault nothing changes; otherwise `node` moves to the front and the others keep their order (no change if it is already first) |
| CircularSentinelList.SentinelCircularDLL.MakeLast | lib/DLL/circular-sentinel/index.js:119-131 | on a fault nothing changes; otherwise `node` moves to the back and the others keep their order |
| Seqs.MoveToBackMultiset | lib/DLL/circular-sentinel/index.js:119-131 | relocation keeps every value with its count |
| CircularSentinelList.SentinelCircularDLL.Search | lib/DLL/circular-sentinel/index.js:83-85 | null iff the value is absent; otherwise the first node from the front holding it |
| CircularSentinelList.SentinelCircularDLL.Forward | lib/DLL/circular-sentinel/index.js:87-94 | null iff the value is absent; otherwise the first node from the front holding it |
| CircularSentinelList.SentinelCircularDLL.Backward | lib/DLL/circular-sentinel/index.js:96-103 | null iff the value is absent; otherwise the last node holding it (the first one met from the back) |
| CircularSentinelList.SentinelCircularDLL.Reset | lib/DLL/circular-sentinel/index.js:133-137 | corrected `reset`: a fresh empty ring with size 0 |
| CircularSentinelList.SentinelCircularDLL.ResetAsWritten | lib/DLL/circular-sentinel/index.js:133-137 | `reset` as written: a fresh empty ring, but `size` keeps its old value, so a non-empty ring becomes invalid |
| CircularSentinelList.ResetKeepsSize | lib/DLL/circular-sentinel/index.js:133-137 | witness: push then reset leaves an empty ring whose size is 1 |
| SortedSentinelList.SortedDLL.constructor | lib/DLL/sorted-sentinel.js:8-11 | a new ring is empty, valid and sorted |
| SortedSentinelList.SortedDLL.Reset | lib/DLL/sorted-sentinel.js:13-17 | a fresh self-linked sentinel: the empty ring |
| SortedSentinelList.SortedDLL.Insert | lib/DLL/sorted-sentinel.js:19-43 | the new node is placed at the upper bound of its value: before the first greater value, after all equal ones; the ring stays sorted |
| Seqs.UpperBoundAt | lib/DLL/sorted-sentinel.js:27-37 | the position where the scan stops (the first value greater than `value`, or the end) is the upper bound |
| Seqs.InsertSorted | lib/DLL/sorted-sentinel.js:19-43 | inserting at the upper bound keeps a sorted sequence sorted |
| Seqs.InsertAtMultiset | lib/DLL/sorted-sentinel.js:19-43 | an insert adds exactly one occurrence of the value |
| SortedSentinelList.SortedDLL.Place | lib/DLL/sorted-sentinel.js:30-42 | the neighbours' links to the new node put it at the upper bound of its value; the ring stays sorted |
| SortedSentinelList.SortedDLL.Take | lib/DLL/sorted-sentinel.js:47-49 | joining a node's neighbours removes exactly position i and keeps the ring sorted; the node keeps its links |
| SortedSentinelList.SortedDLL.Pop | lib/DLL/sorted-sentinel.js:45-51 | None on an empty ring; otherwise the greatest (last) value, whose node keeps its links |
| SortedSentinelList.SortedDLL.Shift | lib/DLL/sorted-sentinel.js:53-59 | None on an empty ring; otherwise the least (first) value, whose node keeps its links |
| SortedSentinelList.SortedDLL.Delete | lib/DLL/sorted-sentinel.js:61-70 | true iff the value is present; on true, the first node holding it is removed with its links cleared; on false nothing changes |
| Seqs.SortedInsertDelete | lib/DLL/sorted-sentinel.js:19-70 | after an insert, deleting the same value gives the old sorted values back |
| Seqs.SortedRemoveAt | lib/DLL/sorted-sentinel.js:45-70 | removing any node keeps the ring sorted |
| SortedSentinelList.SortedDLL.Has | lib/DLL/sorted-sentinel.js:72-75 | true iff the value is present |
| SortedSentinelList.SortedDLL.Find | lib/DLL/sorted-sentinel.js:77-84 | null iff the value is absent; otherwise the first node holding it |
| SortedSentinelList.SortedDLL.Backward | lib/DLL/sorted-sentinel.js:86-92 | the callback sees the values from the tail to the head, so they never increase |
| Seqs.SortedReversed | lib/DLL/sorted-sentinel.js:86-92 | read backwards, a sorted sequence does not increase |
| SortedSentinelList.SortedDLL.Forward | lib/DLL/sorted-sentinel.js:94-100 | the callback sees the values from the head to the tail, so they ascend |
| AdjustedList.AdjustedSLL.constructor | lib/SLL/adjusted.js:4 | a new list is empty |
| AdjustedList.AdjustedSLL.Unshift | lib/SLL/adjusted.js:6-12 | the new node becomes the head; values gain `value` at the front |
| AdjustedList.AdjustedSLL.Shift | lib/SLL/adjusted.js:14-19 | None on an empty list; otherwise the first value, with the head moved on |
| AdjustedList.AdjustedSLL.Delete | lib/SLL/adjusted.js:21-32 | true iff the node is in the list and not the head; on true, exactly that node is removed; on false nothing changes |
| AdjustedList.AdjustedSLL.Bypass | lib/SLL/adjusted.js:26 | `pointer.next = node.next` removes the node after position i, which keeps its `next` |
| AdjustedList.AdjustedSLL.Search | lib/SLL/adjusted.js:34-50 | null, with nothing changed, iff the value is absent; otherwise the first node holding it, moved to the front with the others in order (no change when it is already the head) |
| AdjustedList.AdjustedSLL.MoveUp | lib/SLL/adjusted.js:41-43 | the three writes move the node at position k to the front, the others in order |
| Nodes.LinkedMoveToFront | lib/SLL/adjusted.js:41-43 | after those writes the chain is linked in move-to-front order |
| Seqs.MoveToFrontMultiset | lib/SLL/adjusted.js:34-50 | move-to-front keeps every value with its count |
| Seqs.MoveToFrontFirst | lib/SLL/adjusted.js:40 | moving the head to the front changes nothing |
| AdjustedList.SearchThenShift | lib/SLL/adjusted.js:34-50 | a `shift` right after a successful `search(v)` returns v |
| AdjustedList.AdjustedSLL.Reset | lib/SLL/adjusted.js:52-54 | the list becomes empty |
| AdjustedRingList.AdjustedSLL.constructor | lib/SLL/adjusted/index.js:6-8 | a new ring is empty |
| AdjustedRingList.AdjustedSLL.Reset | lib/SLL/adjusted/index.js:44-47 | a fresh sentinel whose `next` is itself: the empty ring |
| AdjustedRingList.AdjustedSLL.Unshift | lib/SLL/adjusted/index.js:10-14 | the new node goes right after the sentinel; values gain `value` at the front |
| AdjustedRingList.AdjustedSLL.Shift | lib/SLL/adjusted/index.js:16-20 | on an empty ring, the sentinel's null (None) with the ring unchanged; otherwise the first value, its node unlinked |
| AdjustedRingList.AdjustedSLL.Delete | lib/SLL/adjusted/index.js:22-29 | a present node is removed (through the sentinel when it is first) and the others keep their order |
| AdjustedRingList.AdjustedSLL.Bypass | lib/SLL/adjusted/index.js:28 | the single write removes the node at position i, whose predecessor is the sentinel when i is 0 |
| Nodes.LinkedRemoveAt | lib/SLL/adjusted/index.js:28 | after that write the chain is linked without the node |
| AdjustedRingList.AdjustedSLL.Search | lib/SLL/adjusted/index.js:31-42 | the first node holding a present value is moved to just after the sentinel and returned; the others keep their order |
| AdjustedRingList.AdjustedSLL.Promote | lib/SLL/adjusted/index.js:37-41 | the three writes move the node at position k to the front, and change nothing when k is 0 |
| AdjustedRingList.SearchThenShift | lib/SLL/adjusted/index.js:16-42 | a `shift` right after `search(v)` returns v |

## Left out

- Iteration (`[Symbol.iterator]`) is represented by the ghost `Values()` sequence. The iterator of lib/SLL/adjusted/index.js starts at the sentinel and never ends; that behaviour is not modelled.
- Comparator and callback parameters (`merge(list, cmp)`, `mergeSort(compare)`, the `SortedDLL` constructor's `compare`, and `forward`/`backward(callback)` of `SortedDLL`) are not modelled in general. The order is fixed to the default integer comparator. A callback walk returns the sequence of values it would hand to the callback.
- JavaScript number semantics (floating point, `NaN`, `===` on mixed types) are not modelled. Values are `int`, and so are `cut`'s `from` and `remove`'s `n`. A fractional count never reaches 0 in the source's countdown: `cut` then decrements `size` at every step and keeps only the head, and `remove` returns with nothing changed. Neither case is modelled.
- Return values that only serve chaining (`return this`, `remove`'s bare `return;`) are not modelled.
- `#validateAction`'s `typeof node !== "object"` check and its error strings are not modelled. A throw is a returned `Fault` with nothing changed.
- CircularSentinelList.SentinelCircularDLL.Before: requires the node to be in this ring or detached. The source does not check for a live node of another ring, so what happens then is not modelled.
- CircularSentinelList.SentinelCircularDLL.After: requires the node to be in this ring or detached. The source does not check for a live node of another ring, so what happens then is not modelled.
- CircularSentinelList.SentinelCircularDLL.Delete: requires the node to be in this ring or detached. The source does not check for a live node of another ring, so what happens then is not modelled.
- CircularSentinelList.SentinelCircularDLL.MakeFirst: requires the node to be in this ring or detached. The source does not check for a live node of another ring, so what happens then is not modelled.
- CircularSentinelList.SentinelCircularDLL.MakeLast: requires the node to be in this ring or detached. The source does not check for a live node of another ring, so what happens then is not modelled.
- PlainList.SLL.Search: requires a non-empty list, because the source reads `head.value` without a check.
- PlainList.SLL.MergeSort: requires a non-empty list, because the source walks from `head.next` without a check.
- PlainList.SLL.Concat: requires a non-empty list, because the source writes `this.#tail.next` without a check. It also requires a different list with no node in common; the source's behaviour otherwise is not modelled.
- PlainList.SLL.Prev: requires a non-empty list; `delete` calls it only after its size check. A null target is excluded by the node type. In the source `#prev(null)` returns the last node, whose `next` is null.
- PlainList.SLL.Delete: a null node is excluded by the node type. In the source, on a non-empty list, `#prev(null)` returns the last node and the bypass then throws reading `null.next`.
- PlainList.SLL.MergeChains: models `#merge`'s `if (!a) return a; if (!b) return b;` guard as written. The guard returns null even when the other chain has nodes. `#sort` never passes an empty chain, so `MergeSort` is unaffected.
- AdjustedRingList.AdjustedSLL.Delete: requires the node to be in the ring. The `!== null` guard never fails on a ring, so the walk would never end otherwise.
- AdjustedRingList.AdjustedSLL.Search: requires the value to be present, for the same reason as `Delete`. This non-ending walk is a defect of the source (the null-terminated variant returns null instead), but it is not listed under Findings: a walk that never ends cannot be stated as a terminating Dafny member, and no corrected ring `search` is modelled.
- AdjustedList.AdjustedSLL.Delete: a null argument is excluded by the node type. The source would dereference it at the last node.
- CircularSentinelList.SentinelCircularDLL.Before: a null node is excluded by the node type. In the source `#validateAction(null)` passes the `typeof` test and then throws a TypeError reading `node.prev`.
- CircularSentinelList.SentinelCircularDLL.After: a null node is excluded by the node type. In the source `#validateAction(null)` passes the `typeof` test and then throws a TypeError reading `node.prev`.
- CircularSentinelList.SentinelCircularDLL.Delete: a null node is excluded by the node type. In the source `#validateAction(null)` passes the `typeof` test and then throws a TypeError reading `node.prev`.
- CircularSentinelList.SentinelCircularDLL.MakeFirst: a null node is excluded by the node type. In the source `#validateAction(null)` passes the `typeof` test and then throws a TypeError reading `node.prev`.
- CircularSentinelList.SentinelCircularDLL.MakeLast: a null node is excluded by the node type. In the source `#validateAction(null)` passes the `typeof` test and then throws a TypeError reading `node.prev`.
- Sentinel values (`null` in the source) are a `0` that no operation reads. The sentinel's null returned by `shift` on an empty adjusted ring is `None`.
- Garbage collection is not modelled. `mergeSort` and `#merge` allocate fresh nodes, so old handles simply stop being in `nodes`.
- Integer widths: `size` is an unbounded `nat`, which agrees with the source's counters for any list that fits in memory.
- `cut(from)` drops the last `from` nodes, as the code and its tests do.
- The repository's tests expect behaviours the code does not have, and the model follows the code in each case:
  - `SentinelCircularDLL`: `true` from a first `delete` (the code returns nothing), `false` from a second `delete` (the code throws), a zero size after `reset` (the second Findings row), and callbacks for `forward`/`backward`;
  - `SLL`: null from `search` on an empty list, size 0 after `mergeSort` of an empty list, and size 2 after `concat` onto an empty list, where the code crashes (the `Search`, `MergeSort` and `Concat` lines above);
  - `SLL`: an empty argument to `concat` leaving the list unchanged, where the code nulls `tail` (the first Findings row).

## Findings

| source | as written | input that shows it | evidently intended | confidence | as-written member | corrected member |
|---|---|---|---|---|---|---|
| lib/SLL/plain/index.js:102-109 | `concat` copies the argument's `#tail` even when the argument is empty | a list holding one value, concatenated with an empty list: the list keeps its node but its tail becomes null | an empty argument leaves the list as it is | high; not executed | PlainList.SLL.ConcatAsWritten, PlainList.ConcatEmptyLosesTail | PlainList.SLL.Concat |
| lib/DLL/circular-sentinel/index.js:133-137 | `reset` installs a new sentinel but leaves `#size` unchanged | `push(7)` then `reset()`: the ring is empty while `size` is 1 | `reset` also sets `#size` to 0 | high; not executed | CircularSentinelList.SentinelCircularDLL.ResetAsWritten, CircularSentinelList.ResetKeepsSize | CircularSentinelList.SentinelCircularDLL.Reset |
