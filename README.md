# Data structures and sorting algorithms, modelled in Dafny

This project models a small Java library of hand-written data structures and
sorting algorithms. It covers six classes:

- `ArraySort`: six sorts of an array under a `Comparator`, counting comparisons
  and swaps.
- `ArrayList`: a growable array list with insertion, bubble and selection sort.
- `LinkedList`: a doubly linked list with the same three sorts, done through
  `getNode(i).data`.
- `CircularArrayQueue`: a ring-buffer FIFO queue that doubles when it is full.
- `HashTable`: 1000 buckets of key/value pairs with chaining.
- `BinarySearchTree`: a binary search tree without duplicates.

Each class keeps the form of its source:

- Classes whose methods update fields in place are Dafny classes. Their
  `modifies` clauses name what changes, and their loops carry invariants.
- The array sorts keep the array, and every sort is proved to leave it sorted
  and a permutation of what it held.
- The tree's recursive helpers rebuild the path to the changed node and work on
  a `Tree` datatype. The class `BinarySearchTree` holds the root, the
  comparator and `delReturn`, as the source does.

Java types are modelled as follows:

- A reference the source tests for `null` is an `Option` (`None` is `null`).
  These are the slots of `ArrayList` and of the queue, hash keys, values and
  buckets, the element passed to the tree's `add`, and what `find` and
  `delete` return.
- Elements of `LinkedList`, and targets of the tree's `contains`, `find`,
  `delete` and `remove`, are a type parameter `E`. The source never tests
  these for `null`, so a `null` among them is outside the model (see Left out).
- A thrown exception is the `Throws`/`Raised` case of `Result`/`Outcome`.
- A `Comparator` is a function `(E, E) -> int` that obeys the comparator laws
  (`Comparators.IsComparator`).
- `hashCode`/`equals` are functions that obey the `equals` contract
  (`HashTables.EqualsContract`).

Java's truncating `/` and `%` are written out explicitly (`Comparators.JavaDiv`,
`Comparators.JavaRem`).

Modules:

- `Wrappers`: `Option`, `Result`, `Outcome`, `Exception`.
- `Comparators`: comparator laws, sortedness, Java division.
- `ListOps`: index insertion and removal on sequences.
- `SortFacts`, `HeapOrder`, `Merging`, `Partitions`: lemmas behind the sorts.
- `ArraySorts`, `ArrayLists`, `LinkedLists`, `CircularQueues`, `HashTables`,
  `Trees`: the six classes.

Where a method's documentation and its code disagree, the model follows the code:

- `offer` answers false although it enqueues.
- `ArrayList.add(index, element)` rejects `index == size`.
- `smallestChild`'s comment speaks of the largest child; the code looks for
  the smallest.

## Model

| member | source | states |
|---|---|---|
| Comparators.JavaRem | HashTable.java:139 | Java's `%`: the remainder has the dividend's sign, is smaller than the divisor in magnitude, and `a == (a / b) * b + r` with truncating division |
| HeapOrder.Parent | ArraySort.java:102-106 | `(child - 1) / 2` in Java: for a child above 0 a parent below it whose children are `2p+1`, `2p+2`; for child 0 the parent is 0 itself (Java truncates -1/2 to 0) |
| ListOps.Inserted | ArrayList.java:167-171 | inserting at `i`: one element longer, `x` at `i`, the elements before `i` kept and those after moved up one |
| ListOps.Removed | ArrayList.java:198-202 | removing at `i`: one element shorter, the elements before `i` kept and those after moved down one |
| ListOps.RemoveInserted | ArrayList.java:160-204 | removing at `i` what was inserted at `i` gives the list back |
| ListOps.InsertRemoved | ArrayList.java:160-204 | inserting back at `i` the element removed from `i` gives the list back |
| ListOps.InsertedAtEnd | LinkedList.java:235-238 | `add(entry)` as `add(size, entry)` appends |
| ListOps.RemovedMultiset | ArrayList.java:193-204 | removal takes exactly one occurrence of the removed element out of the list |
| SortFacts.SwapPermutes | ArraySort.java:256-261 | exchanging two slots permutes the array |
| SortFacts.AdjacentSorted | ArraySort.java:56-58 | when every neighbouring pair is in order (a pass with no exchange), the array is sorted |
| SortFacts.RotatePermutes | ArraySort.java:24-31 | shifting a run right and dropping the held element in front of it permutes the array |
| SortFacts.SortedJoin | ArraySort.java:48-59 | a sorted front, a sorted back and every front element at most every back element make a sorted whole |
| HeapOrder.HeapBelowRoot | ArraySort.java:109-112 | in a max-heap under the comparator, no element is above the root |
| HeapOrder.SiftUpStep | ArraySort.java:103-106 | swapping a child above its parent moves the single heap violation one level up |
| HeapOrder.SiftUpDone | ArraySort.java:103 | when the child is the root or not above its parent, the prefix is a heap |
| HeapOrder.DrainStart | ArraySort.java:110-113 | swapping the root with the last heap slot leaves the maximum at the end and a heap broken only at the root |
| HeapOrder.SiftDownStep | ArraySort.java:124-126 | swapping a parent with its larger child moves the violation down to that child |
| HeapOrder.SiftDownDone | ArraySort.java:124-130 | when the parent is at least its larger child, the prefix is a heap |
| HeapOrder.SiftDownLeaf | ArraySort.java:115-118 | a parent without children ends the sift-down with a heap |
| Merging.MergeFrom | ArraySort.java:171-188 | the merge of the remaining runs is as long as both remainders together |
| Merging.MergePermutes | ArraySort.java:171-188 | the merge holds exactly the elements of both runs |
| Merging.MergeSorted | ArraySort.java:171-188 | merging two sorted runs gives a sorted run |
| Merging.MergeSwapsTies | ArraySort.java:172-178 | on a tie the right run's element goes first, so the merge is not stable |
| Merging.MergeWritesPowerOfTwo | ArraySort.java:159-190 | for 2^k elements, merge sort makes k·2^k writes |
| Partitions.JoinAroundPivot | ArraySort.java:231-234 | sorted ranges left and right of a pivot that splits them make a sorted range |
| Partitions.QuickJoin | ArraySort.java:233-234 | the two recursive calls together sort `first..last` and permute only that range |
| Partitions.PivotPlaced | ArraySort.java:231-232 | swapping the pivot into `down` puts everything not above it to its left and everything above it to its right |
| Partitions.ScansMeet | ArraySort.java:220-230 | one round of the two scans either leaves a consistent partition state or ends the loop with `down` a split point |
| ArraySorts.BubbleStepsQuiet | ArraySort.java:50-57 | a pass makes no exchange exactly when its range is already in order, and then it changes nothing |
| ArraySorts.BubblePassSettles | ArraySort.java:50-55 | a pass permutes the array and settles the largest of its range at the end of the range |
| ArraySorts.BubblePassQuiet | ArraySort.java:56-58 | on a sorted array a pass makes no exchange; a pass with no exchange leaves the array sorted |
| ArraySorts.InsertionPlaced | ArraySort.java:23-33 | dropping the held element after the shifted run extends the sorted prefix by one and permutes the array |
| ArraySorts.SelectionStep | ArraySort.java:76-82 | swapping the smallest remaining element into slot `i` permutes the array and extends the selected, sorted prefix |
| ArraySorts.SelectionComparisonsSum | ArraySort.java:75-81 | the first `i` passes of selection sort make i(2n − i − 1)/2 comparisons |
| ArraySorts.SelectionComparisonsPairs | ArraySort.java:75-81 | a whole selection sort makes n(n − 1)/2 comparisons |
| ArraySorts.ArraySort.constructor | ArraySort.java:8-10 | both counters start at 0 |
| ArraySorts.ArraySort.Compare | ArraySort.java:245-248 | returns the comparator's answer and counts one comparison |
| ArraySorts.ArraySort.Swap | ArraySort.java:256-261 | exchanges two slots, permutes the array, counts one swap |
| ArraySorts.ArraySort.ShiftRight | ArraySort.java:24-30 | the run above the held element moves one slot right, every moved element is above it, the one before the gap is not; one write per move and one comparison per test |
| ArraySorts.ArraySort.InsertNext | ArraySort.java:24-32 | extends the sorted prefix by one, permutes; an element in order costs one comparison and one write |
| ArraySorts.ArraySort.InsertionSort | ArraySort.java:19-37 | sorted and a permutation; on sorted input n − 1 comparisons and n − 1 writes |
| ArraySorts.ArraySort.BubblePass | ArraySort.java:50-55 | the array after a pass is the pass function of the old array, the exchanges counted; `last` comparisons |
| ArraySorts.ArraySort.SettlingPass | ArraySort.java:50-58 | a pass permutes and settles one more element; no exchange means sorted; sorted input means no exchange |
| ArraySorts.ArraySort.BubbleSort | ArraySort.java:44-63 | sorted and a permutation; on sorted input one pass: n − 1 comparisons and no swap |
| ArraySorts.ArraySort.SmallestFrom | ArraySort.java:76-81 | the index of the first smallest element of `data[i..]`, after n − i − 1 comparisons |
| ArraySorts.ArraySort.SelectNext | ArraySort.java:76-82 | extends the selected, sorted prefix by one, permutes, one swap |
| ArraySorts.ArraySort.SelectionSort | ArraySort.java:70-87 | sorted and a permutation, n − 1 swaps and n(n − 1)/2 comparisons |
| ArraySorts.ArraySort.SiftUp | ArraySort.java:101-107 | adding slot `n − 1` to a heap of `n − 1` elements gives a heap of `n`; the rest untouched; a permutation |
| ArraySorts.ArraySort.BuildHeap | ArraySort.java:98-108 | the whole array becomes a max-heap, permuted |
| ArraySorts.ArraySort.SiftDown | ArraySort.java:113-131 | a heap broken only at the root becomes a heap; the rest untouched; a permutation |
| ArraySorts.ArraySort.HeapSort | ArraySort.java:94-136 | sorted and a permutation |
| ArraySorts.ArraySort.MergeNext | ArraySort.java:172-179 | one step of the merge loop: the written prefix plus the merge of what remains is the whole merge; one write |
| ArraySorts.ArraySort.MergeRuns | ArraySort.java:171-180 | the loop ends with one run used up and the written prefix consistent with the merge |
| ArraySorts.ArraySort.CopyRest | ArraySort.java:181-188 | copies what remains of one run after the written prefix, one write each |
| ArraySorts.ArraySort.MergeHalves | ArraySort.java:168-188 | the array becomes the merge of the two halves; one write per element |
| ArraySorts.ArraySort.MergeBack | ArraySort.java:168-188 | merging two sorted halves gives a sorted array holding exactly their elements |
| ArraySorts.ArraySort.Merge | ArraySort.java:159-190 | sorted and a permutation, with the write count given by the recursion |
| ArraySorts.ArraySort.MergeSort | ArraySort.java:143-151 | sorted and a permutation; the swap counter counts every write of every merge |
| ArraySorts.ArraySort.ScanUp | ArraySort.java:221-223 | `up` stops at `last` or at the first element above the pivot; everything passed is not above it |
| ArraySorts.ArraySort.ScanDown | ArraySort.java:224-226 | `down` stops at the first element from the right not above the pivot (the pivot itself stops it) |
| ArraySorts.ArraySort.PartitionRound | ArraySort.java:220-230 | one round of the do-while keeps the partition state or ends with a split point; only `first..last` changes; a permutation |
| ArraySorts.ArraySort.Partition | ArraySort.java:217-232 | the pivot `data[first]` ends at `p` with everything left of it not above it and everything right of it above it; only the range changes; a permutation |
| ArraySorts.ArraySort.QuickSortRange | ArraySort.java:214-236 | `first..last` sorted, the rest untouched, a permutation |
| ArraySorts.ArraySort.QuickSort | ArraySort.java:197-205 | sorted and a permutation |
| ArrayLists.ArrayList.constructor | ArrayList.java:135-138 | an empty list with capacity 10 |
| ArrayLists.ArrayList.Reallocate | ArrayList.java:233-236 | a fresh array of twice the capacity, the old slots copied, the list unchanged |
| ArrayLists.ArrayList.Add | ArrayList.java:145-152 | appends, true, and the capacity doubles exactly when the array was full |
| ArrayLists.ArrayList.AddAt | ArrayList.java:160-172 | for `0 <= index < size` the list with `element` inserted at `index`; otherwise an index exception and nothing changes |
| ArrayLists.ArrayList.ShiftIn | ArrayList.java:167-171 | with room to spare, the tail moves up one and the element goes in at `index` |
| ArrayLists.ArrayList.Get | ArrayList.java:180-185 | the element at `index`, or the index exception |
| ArrayLists.ArrayList.Set | ArrayList.java:213-220 | returns the old element and replaces it, or raises the index exception and changes nothing |
| ArrayLists.ArrayList.Remove | ArrayList.java:193-204 | returns the element at `index` and removes it, the freed slot cleared, the same array kept; or the index exception |
| ArrayLists.ArrayList.Size | ArrayList.java:226-228 | the number of elements in the list |
| ArrayLists.ArrayList.Exchange | ArrayList.java:263-265 | exchanges two elements; a permutation; the free slots untouched |
| ArrayLists.ArrayList.ShiftRight | ArrayList.java:244-249 | the run above the held element moves one slot right; every moved element is above it, the one before the gap is not |
| ArrayLists.ArrayList.InsertNext | ArrayList.java:244-250 | extends the sorted prefix by one and permutes the list |
| ArrayLists.ArrayList.InsertionSort | ArrayList.java:242-252 | the list sorted and permuted; the free slots untouched |
| ArrayLists.ArrayList.BubblePass | ArrayList.java:261-268 | the list after a pass is the pass function of the old list, with its exchange count |
| ArrayLists.ArrayList.SettlingPass | ArrayList.java:261-271 | a pass permutes and settles one more element; no exchange means sorted |
| ArrayLists.ArrayList.BubbleSort | ArrayList.java:258-273 | the list sorted and permuted |
| ArrayLists.ArrayList.SmallestFrom | ArrayList.java:282-287 | the index of the first smallest element from `i` on |
| ArrayLists.ArrayList.SelectNext | ArrayList.java:282-290 | extends the selected, sorted prefix by one and permutes |
| ArrayLists.ArrayList.SelectionSort | ArrayList.java:279-292 | the list sorted and permuted |
| ArrayLists.ShiftedIn | ArrayList.java:167-171 | shifting the tail up and writing `element` at `index` is `Inserted` on the list |
| ArrayLists.ShiftedOut | ArrayList.java:198-202 | shifting the tail down over `index` is `Removed` on the list |
| LinkedLists.LinkedList.constructor | LinkedList.java:223-227 | the empty list: no nodes, no elements |
| LinkedLists.LinkedList.GetNode | LinkedList.java:211-217 | the node at `index` inside the list, `head` for an index at or below 0, null at or past the end |
| LinkedLists.LinkedList.AddFirst | LinkedList.java:167-170 | a new first node; the list is the old list with `entry` in front, the chain and back links intact |
| LinkedLists.LinkedList.AddAfter | LinkedList.java:177-180 | a new node after the one at `k`; the list has `entry` at `k + 1`, the chain and back links intact |
| LinkedLists.LinkedList.AddFirstAsWritten | LinkedList.java:167-170 | the source's `addFirst`: the `next` chain is the old one with `entry` in front, but on a non-empty list the old head's `prev` stays null, so the back links break |
| LinkedLists.LinkedList.AddAfterAsWritten | LinkedList.java:177-180 | the source's `addAfter`: the `next` chain is the old one with `entry` after `node`, but an old successor still points back at `node`, so the back links break |
| LinkedLists.LinkedList.RemoveNodeAsWritten | LinkedList.java:187-204 | the source's `remove(node)` on any node: a null `prev` makes `head` the node's successor, otherwise the predecessor skips it; a null `next` makes `tail` the predecessor, otherwise the successor points back past it; the size drops by one |
| LinkedLists.LinkedList.AddFirstThenRemoveAsWritten | LinkedList.java:246-260 | `add(0, x)` then `remove(1)` on a one-element list, as written: the old element is returned, and the list has no node left although its size is one, so `x` is lost |
| LinkedLists.LinkedList.AddAfterThenRemoveAsWritten | LinkedList.java:281-287 | `add(1, x)` then `remove(2)` on a two-element list, as written: the old second element is returned, and only the head is left although the size is two, so `x` is lost |
| LinkedLists.LinkedList.RemoveNode | LinkedList.java:187-204 | unlinks the node at `k` and returns its element; the list is the old one without index `k`, still doubly linked with `head` and `tail` right |
| LinkedLists.LinkedList.Add | LinkedList.java:246-260 | for `0 <= index <= size` the list with `element` inserted at `index`, valid with the right `tail`; otherwise the index exception and nothing changes |
| LinkedLists.LinkedList.MoveTail | LinkedList.java:257-259 | after an insertion at the end, `tail` becomes the last node |
| LinkedLists.LinkedList.Append | LinkedList.java:235-238 | appends `entry` and answers true |
| LinkedLists.LinkedList.Get | LinkedList.java:267-273 | the element at `index`, or the index exception |
| LinkedLists.LinkedList.Remove | LinkedList.java:281-287 | returns the element at `index` and removes it, or the index exception and nothing changes |
| LinkedLists.LinkedList.Set | LinkedList.java:296-304 | returns the old element and replaces it, links unchanged; or the index exception |
| LinkedLists.LinkedList.Size | LinkedList.java:310-312 | the number of elements in the list |
| LinkedLists.LinkedList.Load | LinkedList.java:321-322 | `getNode(index).data` is the element at `index` |
| LinkedLists.LinkedList.StoreAt | LinkedList.java:323 | `getNode(index).data = e` changes that one element and no link |
| LinkedLists.LinkedList.Exchange | LinkedList.java:339-341 | exchanges two elements; a permutation |
| LinkedLists.LinkedList.ShiftRight | LinkedList.java:320-325 | the run above the held element moves one place right; every moved element is above it, the one before the gap is not |
| LinkedLists.LinkedList.InsertNext | LinkedList.java:320-326 | extends the sorted prefix by one and permutes |
| LinkedLists.LinkedList.InsertionSort | LinkedList.java:318-328 | the list sorted and permuted, still valid |
| LinkedLists.LinkedList.BubblePass | LinkedList.java:337-344 | the list after a pass is the pass function of the old list, with its exchange count |
| LinkedLists.LinkedList.SettlingPass | LinkedList.java:337-347 | a pass permutes and settles one more element; no exchange means sorted |
| LinkedLists.LinkedList.BubbleSort | LinkedList.java:334-349 | the list sorted and permuted, still valid |
| LinkedLists.LinkedList.SmallestFrom | LinkedList.java:358-363 | the index of the first smallest element from `i` on |
| LinkedLists.LinkedList.SelectNext | LinkedList.java:358-366 | extends the selected, sorted prefix by one and permutes |
| LinkedLists.LinkedList.SelectionSort | LinkedList.java:355-368 | the list sorted and permuted, still valid |
| CircularQueues.Wrap | CircularArrayQueue.java:34 | Euclidean `%` on an index at most one lap outside the ring is a single wrap-around; the source's `(rear + 1) % data.length` is such a case, with a non-negative operand where Java's `%` agrees |
| CircularQueues.CircularArrayQueue.RearSlot | CircularArrayQueue.java:34 | the ring invariant as a Euclidean `%`: `rear == (front + size - 1) % capacity`, a valid slot (for an empty queue with `front == 0`, the last slot) |
| CircularQueues.CircularArrayQueue.Contents | CircularArrayQueue.java:76-84 | the queue has `size` elements; element `i` sits `i` slots after `front`, wrapping around |
| CircularQueues.CircularArrayQueue.constructor | CircularArrayQueue.java:17-22 | an empty queue of capacity 10, `front` 0 and `rear` 9 |
| CircularQueues.CircularArrayQueue.Reallocate | CircularArrayQueue.java:113-123 | a fresh array of twice the capacity holding the queue in order from slot 0, `front` 0, `rear` at `size − 1`; the queue unchanged |
| CircularQueues.CircularArrayQueue.Enqueue | CircularArrayQueue.java:33-35 | with room to spare, `e` joins the rear |
| CircularQueues.CircularArrayQueue.Add | CircularArrayQueue.java:29-37 | `e` joins the rear, true; the capacity doubles exactly when the queue was full |
| CircularQueues.CircularArrayQueue.Offer | CircularArrayQueue.java:44-47 | `e` joins the rear, and the answer is false |
| CircularQueues.CircularArrayQueue.Element | CircularArrayQueue.java:54-59 | the front element, or the no-such-element exception on an empty queue |
| CircularQueues.CircularArrayQueue.Peek | CircularArrayQueue.java:65-70 | the front element, or null on an empty queue |
| CircularQueues.CircularArrayQueue.Dequeue | CircularArrayQueue.java:80-83 | the returned element followed by the new queue is the old queue; the array is kept |
| CircularQueues.CircularArrayQueue.Poll | CircularArrayQueue.java:76-84 | removes and returns the front element; null and nothing changes on an empty queue |
| CircularQueues.CircularArrayQueue.Remove | CircularArrayQueue.java:91-99 | removes and returns the front element; the no-such-element exception on an empty queue |
| CircularQueues.CircularArrayQueue.Size | CircularArrayQueue.java:105-107 | the number of queued elements |
| HashTables.KeyIndex | HashTable.java:138-144 | the bucket is in `[0, 1000)` and is the mathematical remainder of the hash code by 1000 |
| HashTables.RemainderFixed | HashTable.java:139-142 | adding 1000 to Java's negative remainder gives the non-negative remainder |
| HashTables.Find | HashTable.java:47-53 | the position of the first pair whose key equals `key`, or the bucket's length when none does |
| HashTables.LookupStored | HashTable.java:42-54 | after `put(key, val)` the bucket maps `key` to `val` |
| HashTables.LookupStoredOther | HashTable.java:42-54 | `put(key, val)` leaves the value of every key not equal to `key` as it was |
| HashTables.StoredUnique | HashTable.java:47-54 | `put` never adds a second pair with an equal key to a bucket |
| HashTables.StoredPlaced | HashTable.java:41-54 | every pair stays in the bucket of its key |
| HashTables.LookupDeleted | HashTable.java:98-101 | after `remove(key)` the bucket has no value for `key` |
| HashTables.LookupDeletedOther | HashTable.java:98-101 | `remove(key)` leaves the value of every other key as it was |
| HashTables.DeletedKept | HashTable.java:98-101 | removal keeps the keys of a bucket distinct and in their bucket |
| HashTables.HashTable.KeyOnce | HashTable.java:28 | no two pairs anywhere in the table have equal keys |
| HashTables.HashTable.constructor | HashTable.java:28 | 1000 empty buckets: no key has a value |
| HashTables.HashTable.Put | HashTable.java:37-57 | a null key or value throws and changes nothing; otherwise returns the previous value (null if none), `key` now maps to `val`, every other key keeps its value |
| HashTables.HashTable.SetStored | HashTable.java:42-54 | writing the updated bucket back: `key` maps to `val`, other keys unchanged, the table invariant kept |
| HashTables.HashTable.Get | HashTable.java:65-81 | a null key throws; otherwise the value stored for `key`, or null |
| HashTables.HashTable.Remove | HashTable.java:89-105 | a null key throws and changes nothing; otherwise returns the removed value (null if none), `key` has no value afterwards, every other key keeps its value |
| HashTables.HashTable.SetDeleted | HashTable.java:98-101 | writing the bucket back without `key`'s pair: no value for `key`, others unchanged, the invariant kept |
| Trees.InOrderSorted | BinarySearchTree.java:56-65 | the in-order traversal of an ordered tree is strictly increasing and lists exactly its elements, once each |
| Trees.OrderedUnique | BinarySearchTree.java:90-93 | an ordered tree holds no two elements that compare equal |
| Trees.AddAtCorrect | BinarySearchTree.java:90-112 | adds a leaf exactly when no element compares equal to `item`; the tree then gains `item` and one node, and stays ordered; otherwise it is unchanged |
| Trees.ContainsAtCorrect | BinarySearchTree.java:130-143 | the search answers true exactly when some element compares equal to `item` |
| Trees.FindAtCorrect | BinarySearchTree.java:161-174 | the search finds a stored element equal to the target exactly when one exists |
| Trees.SmallestChild | BinarySearchTree.java:242-251 | the corrected `smallestChild`: unlinks the leftmost node of the left spine by setting its parent's `left` |
| Trees.SmallestChildCorrect | BinarySearchTree.java:242-251 | the corrected `smallestChild` returns the smallest element, removes exactly it and keeps the subtree ordered |
| Trees.ShiftNodeCorrect | BinarySearchTree.java:216-235 | the subtree replacing a matched node holds its elements minus the matched one, one node fewer, still ordered |
| Trees.DeleteAtCorrect | BinarySearchTree.java:193-209 | deletion removes the element equal to the target if there is one and reports it; otherwise the tree and the report are unchanged and null; the tree stays ordered |
| Trees.DeleteThenAbsent | BinarySearchTree.java:193-209 | after a deletion no element compares equal to the target |
| Trees.SmallestChildAsWrittenKeepsSuccessor | BinarySearchTree.java:242-247 | the source's `smallestChild` leaves the successor it returns in the tree |
| Trees.AsWrittenDeepDeleteBreaksOrder | BinarySearchTree.java:231 | with the source's `smallestChild`, deleting a node whose successor lies deeper leaves a tree that is not ordered |
| Trees.DeepSuccessorExample | BinarySearchTree.java:242-251 | inserting 5, 3, 8, 7, 9 and deleting 5 with the source's `smallestChild` gives the in-order 3, 7, 7, 8; the corrected deletion gives 3, 7, 8, 9 |
| Trees.InsertDeleteExample | BinarySearchTree.java:182-209 | inserting 5, 3, 8, 1, 4 gives in-order 1, 3, 4, 5, 8; deleting 3 and then 5 gives 1, 4, 5, 8 and then 1, 4, 8 |
| Trees.BinarySearchTree.constructor | BinarySearchTree.java:38-40 | an empty tree with the given (possibly null) comparator |
| Trees.BinarySearchTree.InorderString | BinarySearchTree.java:47-65 | the elements in order: strictly increasing under the comparator, each stored element exactly once |
| Trees.BinarySearchTree.Add | BinarySearchTree.java:73-82 | a null item or comparator adds nothing; otherwise true exactly when no equal element was stored, and then `item` is added |
| Trees.BinarySearchTree.Contains | BinarySearchTree.java:120-122 | true exactly when there is a comparator and an element equal to `item` |
| Trees.BinarySearchTree.Find | BinarySearchTree.java:151-153 | a stored element equal to the target, or null when there is none or no comparator |
| Trees.BinarySearchTree.Delete | BinarySearchTree.java:182-185 | returns the stored element equal to the target and removes it, or null with the tree unchanged; afterwards no element equals the target |
| Trees.BinarySearchTree.Remove | BinarySearchTree.java:258-266 | true exactly when an element equal to the target was stored; then `delReturn` is that element and the tree holds every other element, one fewer in all; otherwise nothing changes; afterwards no element equals the target |

## Left out

- Iterators are not part of this model: the inner iterator classes of `ArrayList` and `LinkedList`, and the for-each loops over hash buckets. A bucket scan is an index loop over the bucket's sequence.
- Timing and console output are left out: `System.nanoTime` and `println` in `ArraySort`.
- `HashTable.toString` is left out. `inorderString` is modelled as the sequence of elements it renders; `toString` of an element is not modelled.
- Comparators, `hashCode` and `equals` are parameters that are assumed to obey their Java contracts. A comparator that breaks the laws is not modelled.
- Java's 32-bit `int` is not modelled. Counters, sizes, capacities and hash codes are unbounded integers: a counter or capacity overflow, or the `hashCode` of `Integer.MIN_VALUE`, is outside the model. `KeyIndex` holds for every integer.
- Trees.BinarySearchTree.Contains: the target is a non-null `E` and the comparator is total on `E`. A `null` target, which the source passes to `comp.compare`, is outside the model.
- Trees.BinarySearchTree.Find: the target is a non-null `E`, as for `Contains`.
- Trees.BinarySearchTree.Delete: the target is a non-null `E`, as for `Contains`.
- Trees.BinarySearchTree.Remove: the target is a non-null `E`, as for `Contains`.
- `LinkedList` elements are values of `E`. The source reaches them only through its comparator in the sorts, and the comparator is taken to be total on `E`, `null` included.
- Trees: the source rewires nodes in place; the model rebuilds the path as a value. This is sound because every node has one parent, but node identity and aliasing are not captured.
- Trees.SmallestChild: the model uses the corrected `smallestChild`; the as-written one is modelled separately (see Findings).
- HashTables.HashTable.Put: `e.val = val` mutates the pair object in place; the model replaces the pair in the bucket's sequence. The identity of pair objects and of the bucket `LinkedList` is not modelled.
- HashTables.HashTable.constructor: a bucket that was never used is null (`None`) and one emptied by `remove` is an empty list. Both have no pairs, and the contracts do not tell them apart.
- LinkedLists.LinkedList.Add: it uses the corrected `addFirst`/`addAfter`, which also set the successor's `prev`. Insertions therefore keep the list doubly linked. What the as-written versions do to a later `remove` is shown for the two inputs in Findings.
- LinkedLists.LinkedList.GetNode: a negative index only occurs in the model through `add(0, …)`, which does not call it. Its contract states the result for every index.
- CircularQueues.CircularArrayQueue.Reallocate: it requires a full queue, its only call site. What it would do to a queue that is not full is not stated.
- ArraySorts.ArraySort.HeapSort: states sortedness and permutation but not the final counter values.
- ArraySorts.ArraySort.QuickSort: states sortedness and permutation but not the final counter values.
- ArraySorts.ArraySort.MergeSort: states the swap (write) count but not the comparison count.
- ArraySorts.ArraySort.InsertionSort: the counts are stated only for already-sorted input.
- ArraySorts.ArraySort.BubbleSort: the counts are stated only for already-sorted input.
- ArrayLists.ArrayList.InsertionSort: the source's list sorts have no counters, so these contracts state only sortedness and permutation. The same holds for `BubbleSort` and `SelectionSort` here and in `LinkedList`.
- ArrayLists.ArrayList.SettlingPass: does not state that a sorted list makes a pass with no exchange; this is stated for the array version, `ArraySorts.ArraySort.SettlingPass`.

## Findings

| source | as written | input that shows it | evidently intended | confidence | as-written member | corrected member |
|---|---|---|---|---|---|---|
| BinarySearchTree.java:245 | `smallestChild` unlinks the successor with `node.right = node.left.right`, replacing the parent's right subtree instead of its left child | insert 5, 3, 8, 7, 9 and delete 5: 7 is copied into the root but stays in the tree, and 9 is lost (in-order 3, 7, 7, 8) | `node.left = node.left.right` | high; not executed | Trees.AsWrittenDeepDeleteBreaksOrder | Trees.SmallestChildCorrect |
| LinkedList.java:168 | `addFirst` links the new node in front of `head` but leaves the old head's `prev` null | `add(0, x)` on a one-element list [a]: `a.prev` stays null, so a later `remove(1)` takes `a` for the head and drops `x` | also set the old head's `prev` to the new node | high; not executed | LinkedLists.LinkedList.AddFirstThenRemoveAsWritten | LinkedLists.LinkedList.AddFirst |
| LinkedList.java:178 | `addAfter` sets `node.next` to the new node but leaves the old successor's `prev` at `node` | `add(1, x)` on [a, b]: `b.prev` is still `a`, so a later `remove(2)` sets `a.next` to null and drops `x` | also set the old successor's `prev` to the new node | high; not executed | LinkedLists.LinkedList.AddAfterThenRemoveAsWritten | LinkedLists.LinkedList.AddAfter |
