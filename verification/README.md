# java-algorithms in Dafny

A Dafny model of the core of a small Java collection of textbook algorithms and data
structures, with proofs of what each one promises:

- **Data structures.** `BinaryNode` is a value cell with a left and a right link.
  `DoublyLinkedList` builds a positional list from those nodes, with a root, a tail and
  a size. It implements the `LinkedList` interface. `Stack.newInstance()` and
  `Queue.newInstance()` also return a `DoublyLinkedList`, but `DoublyLinkedList.java`
  declares only `implements LinkedList<T>` and defines no `push`, `pop`, `enqueue` or
  `dequeue`, so those calls do not type-check as written. The model assumes the
  delegation that the interfaces' documentation and tests suggest: `push` and
  `enqueue` are `add`, `pop` is `remove(size() - 1)` and `dequeue` is `remove(0)`.
  Every `Stack` and `Queue` claim below rests on that assumption. `Pair` is an
  immutable pair.
- **Sorts** of an array segment:
  - insertion sort;
  - selection sort;
  - merge sort with an auxiliary array and an insertion-sort cutoff;
  - quick sort with Hoare's partition, the same cutoff and a shuffle first.

  They share the `Utilities` helpers `swap`, `isSorted` and `shuffle`.
- **Search.** Binary search over a sorted array, and breadth-first search over a graph
  given by a `children` function and an `isTarget` test.
- **Number theory.** The incremental prime sieve `SieveOfEratosthenes` behind the
  `Sieve` interface: the `p`-th prime, membership, index, and factorisation.

How the Java is represented:

- Java's exceptions become values of `Wrappers.Result` (`IndexOutOfBounds(index, size)`,
  `NullPointer`), and a nullable reference becomes `Wrappers.Nullable`.
- Object references into the linked list become addresses into an arena of nodes
  (module `NodeChain`). Each mutating list method is a function from the state before
  the call to the result and the state after it.
- Arrays are sequences. Each sort returns the array as it is after the call.
- A comparator (`compareTo`) is a key function `T -> int`. Sortedness, permutation and
  stability are defined once, in `SortSpec`.
- `LinkedList` (module `LinkedList`) is the reference definition over `seq<T>`. The
  node-based `DoublyLinkedList` is proved to refine it on every state that satisfies the
  class invariant `Valid`.

Where the documentation and the code disagree, the model follows the code and says so:

- **Merge ranges.** `merge`'s comment calls the halves `[low, mid - 1]` and `[mid, high]`.
  The code merges `[low, mid]` with `[mid + 1, high]`, and so does `MergeSort.Merge`.
- **Insert at `size() - 1`.** `LinkedList.insert`'s comment says inserting at
  `size() - 1` creates a new last element. The code makes the value second-to-last
  (`LinkedList.InsertAtSizeMinusOneIsSecondToLast`).
- **`isSorted` on one element.** `isSorted` returns `false` for an array of length 1
  (`Utilities.IsSorted`).
- **Printing an empty list.** `toString` dereferences the tail even for an empty list and
  throws (`DoublyLinkedList.ToStringOfValid`).
- **`getPrime` extends one too far.** When `getPrime(p)` extends the list, it stops at
  `p + 1` primes: one more than the answer needs. The answer itself is right
  (`SieveOfEratosthenes.GetPrime`).
- **`primeFactorize`'s multiplicity.** The documentation promises each prime "as many
  times as it divides n". The code adds `n / p` copies (see Findings).

## Model

| member | source | states |
|---|---|---|
| BinaryNode.From | Algorithms/src/algs/datastructures/BinaryNode.java:25-29 | the factory throws `NullPointerException` exactly for a null value, and otherwise stores the value and both links unchanged |
| BinaryNode.ValueOf | Algorithms/test/algs/datastructures/BinaryNodeTest.java:48-55 | `valueOf(v)` succeeds exactly for a non-null value and leaves both links null |
| BinaryNode.WithLeft | Algorithms/test/algs/datastructures/BinaryNodeTest.java:66-73 | `withLeft(v, l)` sets the value and the left link, and leaves the right link null |
| BinaryNode.WithRight | Algorithms/test/algs/datastructures/BinaryNodeTest.java:57-64 | `withRight(v, r)` sets the value and the right link, and leaves the left link null |
| BinaryNode.SetValue | Algorithms/src/algs/datastructures/BinaryNode.java:43-45 | `setValue` replaces only the value (null included); both links are kept |
| BinaryNode.SetLeft | Algorithms/src/algs/datastructures/BinaryNode.java:59-61 | `setLeft` replaces only the left link |
| BinaryNode.SetRight | Algorithms/src/algs/datastructures/BinaryNode.java:75-77 | `setRight` replaces only the right link |
| BinaryNode.Equals | Algorithms/src/algs/datastructures/BinaryNode.java:85-91 | `equals(null)` is false; a non-null node is equal exactly when the values are equal, and the receiver's null value throws |
| BinaryNode.HashCode | Algorithms/src/algs/datastructures/BinaryNode.java:98-100 | the hash is a 32-bit `int` (`11 * 37 + Objects.hashCode(value)`, wrapped) |
| BinaryNode.ToString | Algorithms/src/algs/datastructures/BinaryNode.java:107-109 | a node prints exactly when its value is non-null, as the value's string |
| BinaryNode.EqualsIsValueEquality | Algorithms/src/algs/datastructures/BinaryNode.java:85-91 | node equality is value equality, whatever the links |
| BinaryNode.EqualsIsEquivalence | Algorithms/src/algs/datastructures/BinaryNode.java:85-91 | `equals` is reflexive, symmetric and transitive on nodes with non-null values |
| BinaryNode.EqualNodesHaveEqualHashCodes | Algorithms/src/algs/datastructures/BinaryNode.java:98-100 | equal nodes have equal hash codes, and the hash ignores both links |
| BinaryNode.ToStringOfValue | Algorithms/src/algs/datastructures/BinaryNode.java:107-109 | a node prints as its value's string, and a node whose value was set to null throws |
| DoublyLinkedList.New | Algorithms/src/algs/datastructures/DoublyLinkedList.java:8-17 | a new list is valid, empty and of size 0 |
| DoublyLinkedList.Contents | Algorithms/src/algs/datastructures/DoublyLinkedList.java:16-17 | the values from root to tail number exactly `size` |
| DoublyLinkedList.GetNode | Algorithms/src/algs/datastructures/DoublyLinkedList.java:29-41 | either traversal direction yields a node of the list's arena (or fails) |
| DoublyLinkedList.GetNodeReaches | Algorithms/src/algs/datastructures/DoublyLinkedList.java:29-41 | on a valid list, `index` right hops from the root and `size - 1 - index` left hops from the tail both reach the node holding the `index`-th value |
| DoublyLinkedList.Add | Algorithms/src/algs/datastructures/DoublyLinkedList.java:51-65 | on any closed state, valid or not, `add` appends a new node holding `t` that becomes the tail, grows the size by one, and leaves the root alone when there was a tail |
| DoublyLinkedList.AddRefines | Algorithms/src/algs/datastructures/DoublyLinkedList.java:51-65 | `add` keeps the invariant and appends the value; on an empty list the new node is both root and tail |
| DoublyLinkedList.AddLinked | Algorithms/src/algs/datastructures/DoublyLinkedList.java:51-65 | after `add`, the chain is the old chain followed by the new node, with left and right links mutually inverse |
| DoublyLinkedList.InsertFrontLinked | Algorithms/src/algs/datastructures/DoublyLinkedList.java:87-95 | `insert(0, t)` on a non-empty list succeeds and puts the new node in front of the chain |
| DoublyLinkedList.InsertMiddleResult | Algorithms/src/algs/datastructures/DoublyLinkedList.java:98-108 | `insert(index, t)` with `0 < index < size` splices a new node between the `index - 1`-th and the `index`-th nodes |
| DoublyLinkedList.SplicedInLinked | Algorithms/src/algs/datastructures/DoublyLinkedList.java:98-108 | the splice leaves a linked chain with the new node at position `index` |
| DoublyLinkedList.SplicedInValues | Algorithms/src/algs/datastructures/DoublyLinkedList.java:98-108 | the spliced chain holds the old values with `t` inserted at `index` |
| DoublyLinkedList.InsertFrontRefines | Algorithms/src/algs/datastructures/DoublyLinkedList.java:87-95 | `insert(0, t)` on a non-empty valid list keeps the invariant and prepends `t` |
| DoublyLinkedList.InsertMiddleRefines | Algorithms/src/algs/datastructures/DoublyLinkedList.java:98-108 | `insert(index, t)` with `0 < index < size` keeps the invariant and inserts `t` at `index` |
| DoublyLinkedList.InsertRefines | Algorithms/src/algs/datastructures/DoublyLinkedList.java:83-110 | `insert` throws `IndexOutOfBoundsException` with no change outside `[0, size]`; for every index inside, it keeps the invariant and inserts at that position, including index 0 of an empty list |
| DoublyLinkedList.InsertAsWritten | Algorithms/src/algs/datastructures/DoublyLinkedList.java:83-110 | on any closed state, an index outside `[0, size]` throws `IndexOutOfBoundsException` with no change, and the size grows by one exactly when the call succeeds |
| DoublyLinkedList.Insert | Algorithms/src/algs/datastructures/DoublyLinkedList.java:83-110 | the repaired `insert` keeps the same bounds check and size accounting on any closed state |
| DoublyLinkedList.AddNullable | Algorithms/src/algs/datastructures/DoublyLinkedList.java:51-65 | `add` with an argument that may be null stays within closed states; a null value is rejected by the node factory |
| DoublyLinkedList.InsertNullable | Algorithms/src/algs/datastructures/DoublyLinkedList.java:83-110 | `insert` with an argument that may be null stays within closed states |
| DoublyLinkedList.NullableArguments | Algorithms/src/algs/datastructures/DoublyLinkedList.java:51-110 | `add(null)` and in-range `insert(i, null)` throw `NullPointerException` and change nothing (an out-of-range index throws `IndexOutOfBoundsException` first); a non-null value is appended or inserted as the list ADT says |
| DoublyLinkedList.InsertFrontOfEmptyAsWrittenThrows | Algorithms/src/algs/datastructures/DoublyLinkedList.java:87-95 | as written, `insert(0, t)` on an empty list throws `NullPointerException` after replacing the root, which breaks the invariant; the repaired `Insert` gives `[t]` |
| DoublyLinkedList.FrontOfEmptyAsWrittenObservers | Algorithms/src/algs/datastructures/DoublyLinkedList.java:216-251 | the state that failed `insert(0, t)` leaves has size 0, yet `equals` tells it apart from a new list and `hashCode` gives the hash of the list holding `t`, because both walk from the root |
| DoublyLinkedList.Splice | Algorithms/src/algs/datastructures/DoublyLinkedList.java:136-141 | relinking the neighbours around a node changes no node's value and leaves the node itself as it was |
| DoublyLinkedList.SpliceLinked | Algorithms/src/algs/datastructures/DoublyLinkedList.java:132-140 | unlinking the `i`-th node of a linked chain leaves a linked chain without it |
| DoublyLinkedList.RemoveResult | Algorithms/src/algs/datastructures/DoublyLinkedList.java:127-149 | `remove(index)` on a valid list returns the `index`-th value and unlinks that node, moving the root and the tail as needed |
| DoublyLinkedList.RemoveValid | Algorithms/src/algs/datastructures/DoublyLinkedList.java:127-149 | after `remove(index)` the list is valid and its chain is the old one without the `index`-th node |
| DoublyLinkedList.RemoveRefines | Algorithms/src/algs/datastructures/DoublyLinkedList.java:127-149 | `remove` throws with no change outside `[0, size)`; otherwise it returns the value there, keeps the invariant and deletes exactly that value |
| DoublyLinkedList.RemoveAsWritten | Algorithms/src/algs/datastructures/DoublyLinkedList.java:127-149 | on any closed state, an index outside `[0, size)` throws with no change, the size shrinks by one exactly when the call succeeds, and no node is freed |
| DoublyLinkedList.Remove | Algorithms/src/algs/datastructures/DoublyLinkedList.java:127-149 | the repaired `remove` keeps the same bounds check and size accounting on any closed state |
| DoublyLinkedList.RemoveAsWrittenAgrees | Algorithms/src/algs/datastructures/DoublyLinkedList.java:141-147 | the code as written behaves like the repaired `Remove` on every valid list whose size is not 1 |
| DoublyLinkedList.RemoveSoleAsWrittenLeavesTail | Algorithms/src/algs/datastructures/DoublyLinkedList.java:141-147 | as written, removing the only value leaves the tail pointing at the removed node, so the list is no longer valid |
| DoublyLinkedList.GetRefines | Algorithms/src/algs/datastructures/DoublyLinkedList.java:166-171 | `get` throws outside `[0, size)` and otherwise returns the value at that position |
| DoublyLinkedList.Get | Algorithms/src/algs/datastructures/DoublyLinkedList.java:166-171 | on any closed state, `get` outside `[0, size)` throws `IndexOutOfBoundsException`, and a value it returns is held by a node of the list's arena |
| DoublyLinkedList.Set | Algorithms/src/algs/datastructures/DoublyLinkedList.java:188-193 | on any closed state, `set` outside `[0, size)` throws with no change; otherwise no link, neither end and not the size changes |
| DoublyLinkedList.SetRefines | Algorithms/src/algs/datastructures/DoublyLinkedList.java:188-193 | `set` throws with no change outside `[0, size)`; otherwise only the value at that position changes, and the size and invariant are kept |
| DoublyLinkedList.Size | Algorithms/src/algs/datastructures/DoublyLinkedList.java:203-205 | `size()` is the number of values in the list |
| DoublyLinkedList.Equals | Algorithms/src/algs/datastructures/DoublyLinkedList.java:216-236 | on any closed state `equals` never throws (stored values are non-null), and lists of different sizes are unequal |
| DoublyLinkedList.HashCode | Algorithms/src/algs/datastructures/DoublyLinkedList.java:245-251 | the hash is a 32-bit `int` on any closed state |
| DoublyLinkedList.ToString | Algorithms/src/algs/datastructures/DoublyLinkedList.java:261-267 | `toString` can throw only `NullPointerException`, always does for a list without a tail, and otherwise returns a string framed by `"{ "` and `" }"` |
| DoublyLinkedList.EqualsIsContentEquality | Algorithms/src/algs/datastructures/DoublyLinkedList.java:216-236 | two valid lists are `equals` exactly when they hold the same values in the same order |
| DoublyLinkedList.HashCodeIsContentHash | Algorithms/src/algs/datastructures/DoublyLinkedList.java:245-251 | the hash of a valid list is the 32-bit fold `37 * acc + nodeHash` from 61 over its values |
| DoublyLinkedList.EqualListsHaveEqualHashCodes | Algorithms/src/algs/datastructures/DoublyLinkedList.java:216-251 | equal lists have equal hash codes |
| DoublyLinkedList.ToStringOfValid | Algorithms/src/algs/datastructures/DoublyLinkedList.java:261-267 | a non-empty list prints as "{ " + values joined by ", " + " }"; an empty list throws |
| LinkedList.Add | Algorithms/src/algs/datastructures/LinkedList.java:18-23 | `add` puts the value at the end, grows the size by one and keeps every earlier value |
| LinkedList.Insert | Algorithms/src/algs/datastructures/LinkedList.java:25-34 | `insert` puts `t` at `index`; earlier values stay, and later values move ahead by one |
| LinkedList.Remove | Algorithms/src/algs/datastructures/LinkedList.java:36-44 | `remove` returns the value at `index` and deletes it; later values move back by one |
| LinkedList.Set | Algorithms/src/algs/datastructures/LinkedList.java:56-64 | `set` changes only position `index` and keeps the size |
| LinkedList.InsertThenRemove | Algorithms/src/algs/datastructures/LinkedList.java:25-44 | removing at the position just inserted at returns the inserted value and the original contents |
| LinkedList.SetThenGet | Algorithms/src/algs/datastructures/LinkedList.java:46-64 | reading after `set` gives the value set there and the old value everywhere else |
| LinkedList.InsertAtSizeMinusOneIsSecondToLast | Algorithms/src/algs/datastructures/LinkedList.java:25-34 | inserting at `size() - 1` makes the value second-to-last, not last as the comment says |
| LinkedList.AddAll | Algorithms/src/algs/datastructures/LinkedList.java:18-23 | repeated `add` yields the old contents followed by the added values |
| Stack.NewInstance | Algorithms/src/algs/datastructures/Stack.java:34-36 | a new stack is a valid, empty list |
| Stack.Push | Algorithms/src/algs/datastructures/Stack.java:12 | `push` adds the value on top, at the end of the list |
| Stack.Pop | Algorithms/src/algs/datastructures/Stack.java:19 | `pop` through the repaired `remove(size() - 1)` on a valid stack returns and removes the top value; an empty stack throws and is unchanged |
| Stack.Size | Algorithms/src/algs/datastructures/Stack.java:26 | `size()` counts the values on the stack |
| Stack.PushThenPop | Algorithms/src/algs/datastructures/Stack.java:12-19 | last in, first out: `pop` right after `push(t)` returns `t` and restores the contents |
| Stack.PopReturnsLastPushed | Algorithms/test/algs/datastructures/StackTest.java:64-80 | after pushing 0 and then 1, `pop` returns 1 and leaves one value |
| Stack.PopAsWritten | Algorithms/src/algs/datastructures/DoublyLinkedList.java:127-149 | `pop` through `remove(size() - 1)` as written, on any closed state: an empty stack throws `IndexOutOfBoundsException(-1, 0)` with no change, and the size shrinks by one exactly when a value comes back |
| Stack.PopAsWrittenAgrees | Algorithms/src/algs/datastructures/DoublyLinkedList.java:127-149 | on a valid stack of any size other than one, `pop` as written is the repaired `pop` |
| Stack.DrainedStackAsWritten | Algorithms/src/algs/datastructures/DoublyLinkedList.java:141-147 | as written, popping the only value of a new stack returns it but leaves a null root and the tail on the removed node |
| Stack.RefilledStackState | Algorithms/src/algs/datastructures/DoublyLinkedList.java:51-65 | pushing 2 and 3 onto that drained stack appends behind the stale tail and keeps the null root |
| Stack.RefilledStackAsWritten | Algorithms/src/algs/datastructures/DoublyLinkedList.java:127-149 | on the refilled stack, the pops as written still return 3 and then 2, because index `size() - 1` is reached from the tail, but `toString` throws, walking from the null root |
| Queue.NewInstance | Algorithms/src/algs/datastructures/Queue.java:34-36 | a new queue is a valid, empty list |
| Queue.Enqueue | Algorithms/src/algs/datastructures/Queue.java:12 | `enqueue` adds the value at the back |
| Queue.Dequeue | Algorithms/src/algs/datastructures/Queue.java:19 | `dequeue` returns and removes the front value; an empty queue throws and is unchanged |
| Queue.Size | Algorithms/src/algs/datastructures/Queue.java:26 | `size()` counts the values in the queue |
| Queue.EnqueueThenDequeue | Algorithms/src/algs/datastructures/Queue.java:12-19 | first in, first out: after `enqueue(t)` on a non-empty queue, `dequeue` returns the earliest value and `t` stays at the back |
| Queue.EnqueueAll | Algorithms/src/algs/datastructures/Queue.java:12 | enqueueing values one by one appends them in order |
| Queue.RefilledQueueDequeuesFirst | Algorithms/src/algs/datastructures/Queue.java:12-19 | a drained and refilled queue hands out the first value enqueued after draining |
| Queue.DrainedQueueAsWrittenThrows | Algorithms/src/algs/datastructures/DoublyLinkedList.java:141-147 | as written, after enqueue 1, dequeue, enqueue 2, enqueue 3, the next dequeue throws `NullPointerException` |
| Queue.DrainedQueueDequeues | Algorithms/src/algs/datastructures/Queue.java:12-19 | with the repaired `remove`, the same calls return 2 |
| Queue.DequeueAsWritten | Algorithms/src/algs/datastructures/DoublyLinkedList.java:127-149 | `dequeue` as written on any closed state: an empty queue throws `IndexOutOfBoundsException(0, 0)` with no change, and the size shrinks by one exactly when it succeeds |
| Queue.EnqueueEach | Algorithms/src/algs/datastructures/Queue.java:12 | enqueueing values one by one on any closed state grows the size by their number and never touches the root once there is a tail |
| Queue.DrainedAsWritten | Algorithms/src/algs/datastructures/DoublyLinkedList.java:141-147 | as written, dequeueing the only value of a new queue returns it but leaves a null root, a tail on the removed node and size 0 |
| Queue.NullRootDequeueThrows | Algorithms/src/algs/datastructures/DoublyLinkedList.java:29-36 | as written, `dequeue` on a state with a null root and two or more values walks from the root and throws `NullPointerException` |
| Pair.New | Algorithms/src/algs/datastructures/Pair.java:11-14 | the constructor stores both components, null or not, and `getA`/`getB` return them |
| Pair.GetA | Algorithms/src/algs/datastructures/Pair.java:16-18 | `getA` returns the first component as stored; its round trip with the constructor is the ensures of `Pair.New` |
| Pair.GetB | Algorithms/src/algs/datastructures/Pair.java:20-22 | `getB` returns the second component as stored; its round trip with the constructor is the ensures of `Pair.New` |
| Pair.Equals | Algorithms/src/algs/datastructures/Pair.java:32-38 | `equals(null)` is false, and `true` only for a pair with the same components |
| Pair.EqualsIsComponentwise | Algorithms/src/algs/datastructures/Pair.java:32-38 | for non-null components, `equals` is componentwise equality and is symmetric |
| Pair.HashCode | Algorithms/src/algs/datastructures/Pair.java:24-30 | the hash is defined exactly when both components are non-null, and is a 32-bit `int` |
| Pair.EqualPairsHaveEqualHashCodes | Algorithms/src/algs/datastructures/Pair.java:24-38 | equal pairs have equal hash codes |
| Pair.ToString | Algorithms/src/algs/datastructures/Pair.java:40-43 | `toString` succeeds exactly when both components are non-null |
| Pair.ToStringLayout | Algorithms/src/algs/datastructures/Pair.java:40-43 | the string is "( ", the first string, ", ", the second string, " )", with the lengths adding up |
| Pair.NullComponents | Algorithms/src/algs/datastructures/Pair.java:11-43 | a pair of nulls can be built and read back but not compared or printed |
| Utilities.Swap | Algorithms/src/algs/sorts/Utilities.java:75-83 | with both indices in bounds the two cells are exchanged and nothing else changes; otherwise the array is unchanged |
| Utilities.SwapPermutes | Algorithms/src/algs/sorts/Utilities.java:75-83 | a swap permutes the segment containing both cells, swapping a cell with itself is a no-op, and swapping twice restores the array |
| Utilities.IsSorted | Algorithms/src/algs/sorts/Utilities.java:90-100 | the result is true exactly for a non-null array of length other than 1 whose keys never decrease |
| Utilities.Shuffle | Algorithms/src/algs/sorts/Utilities.java:106-110 | whatever indices are drawn, the result is a permutation of the array |
| SortSpec.AdjacentSortedIsSorted | Algorithms/src/algs/sorts/Utilities.java:94-98 | no element below its predecessor is the same as every pair in order |
| InsertionSort.InsertStep | Algorithms/src/algs/sorts/InsertionSort.java:20-27 | one pass moves `data[i]` down past exactly the earlier elements with a strictly greater key, and stops after any with an equal key |
| InsertionSort.ShiftGreater | Algorithms/src/algs/sorts/InsertionSort.java:22-25 | the inner loop shifts right by one exactly the elements between the stop and `i` whose key is strictly greater than `data[i]`'s, stopping at the first one from the right that is not greater, and leaves the rest alone |
| InsertionSort.InsertStepStable | Algorithms/src/algs/sorts/InsertionSort.java:20-27 | one pass permutes `[low, i]` and keeps equal keys in order |
| InsertionSort.InsertStepSorted | Algorithms/src/algs/sorts/InsertionSort.java:20-27 | one pass extends the sorted prefix by one element |
| InsertionSort.InsertRound | Algorithms/src/algs/sorts/InsertionSort.java:19-28 | one round of the outer loop turns a stable sort of `[low, i)` into a stable sort of `[low, i]` |
| InsertionSort.SortRange | Algorithms/src/algs/sorts/InsertionSort.java:16-29 | `[low, high]` ends up a stable sorted permutation of itself and every other index is untouched; `low >= high` changes nothing |
| InsertionSort.Sort | Algorithms/src/algs/sorts/InsertionSort.java:36-38 | the whole array is stably sorted |
| SelectionSort.MinIndex | Algorithms/src/algs/sorts/SelectionSort.java:22-29 | the inner loop finds the first index of a minimal key in `[i, high)` |
| SelectionSort.SortRange | Algorithms/src/algs/sorts/SelectionSort.java:18-32 | the half-open segment `[low, high)` ends up a sorted permutation of itself and every other index is untouched |
| SelectionSort.Sort | Algorithms/src/algs/sorts/SelectionSort.java:39-41 | the whole array is sorted |
| SelectionSort.InclusiveCallLeavesLastOut | Algorithms/src/algs/sorts/SelectionSort.java:18-32 | called with an inclusive `high`, as the interval tests call every sort, `[2, 1]` with `low = 0, high = 1` stays unsorted |
| SelectionSort.SortInclusive | Algorithms/test/algs/sorts/SortTest.java:62-90 | the inclusive range sort that the interval tests expect sorts `[low, high]` |
| MergeSort.MergePermutes | Algorithms/src/algs/sorts/MergeSort.java:48-58 | the merge holds exactly the elements of both halves |
| MergeSort.MergeSorted | Algorithms/src/algs/sorts/MergeSort.java:48-58 | merging two sorted halves gives a sorted sequence |
| MergeSort.MergeStable | Algorithms/src/algs/sorts/MergeSort.java:53-56 | ties go to the left half, so for every key the merge lists the left half's elements before the right half's |
| MergeSort.MergeFromIsMergeSeq | Algorithms/src/algs/sorts/MergeSort.java:48-58 | the loop's position-by-position merge is the merge of the two remaining slices |
| MergeSort.CopyRange | Algorithms/src/algs/sorts/MergeSort.java:45 | `arraycopy` puts `data[low..high]` into `aux` and leaves the rest of `aux` alone |
| MergeSort.MergeBack | Algorithms/src/algs/sorts/MergeSort.java:48-58 | the loop writes the merge of `[low, mid]` and `[mid + 1, high]` over `[low, high]` and leaves the rest of `data` alone |
| MergeSort.MergeRound | Algorithms/src/algs/sorts/MergeSort.java:49-57 | one round takes the head of the right half exactly when the left half is used up or the right head's key is strictly smaller, writes it at `k`, and keeps `[low, k)` equal to the first `k - low` values of the merge |
| MergeSort.Merge | Algorithms/src/algs/sorts/MergeSort.java:42-59 | `merge` permutes `[low, high]`, and stably sorts it when both halves were sorted |
| MergeSort.SortSegment | Algorithms/src/algs/sorts/MergeSort.java:71-85 | the recursive sort stably sorts `[low, high]` and leaves the rest alone |
| MergeSort.SortRange | Algorithms/src/algs/sorts/MergeSort.java:97-100 | the public range sort stably sorts `[low, high]` |
| MergeSort.Sort | Algorithms/src/algs/sorts/MergeSort.java:109-111 | the whole array is stably sorted |
| QuickSort.Partition | Algorithms/src/algs/sorts/QuickSort.java:24-43 | `partition` permutes `[low, high]` and returns `p` in `[low, high)`; no key in `[low, p]` is above the pivot's and none in `[p + 1, high]` is below it |
| QuickSort.ScanUp | Algorithms/src/algs/sorts/QuickSort.java:31 | the left scan stops at the first index whose key is not below the pivot's |
| QuickSort.ScanDown | Algorithms/src/algs/sorts/QuickSort.java:34 | the right scan stops at the last index whose key is not above the pivot's |
| QuickSort.Exchange | Algorithms/src/algs/sorts/QuickSort.java:41 | the swap keeps the permutation and moves both stopped cells to their proper sides |
| QuickSort.PartsSorted | Algorithms/src/algs/sorts/QuickSort.java:62-64 | sorting both parts of a partition sorts the segment |
| QuickSort.SortSegment | Algorithms/src/algs/sorts/QuickSort.java:51-65 | `quickSort` sorts `[low, high]` and leaves the rest alone |
| QuickSort.SortRange | Algorithms/src/algs/sorts/QuickSort.java:84-86 | the public range sort sorts `[low, high]` |
| QuickSort.Sort | Algorithms/src/algs/sorts/QuickSort.java:72-75 | whatever the shuffle draws, the whole array ends up a sorted permutation of itself |
| BinarySearch.Find | Algorithms/src/algs/search/BinarySearch.java:21-47 | on a sorted array: a null target throws unless the array is empty; a result `>= 0` indexes an equal key; a negative result is `-(insertion point) - 1`, returned exactly when no key is equal |
| BinarySearch.FindInExample | Algorithms/src/algs/search/BinarySearch.java:49-56 | on the `main` example 4 is found at index 3, and 5 gives -5 |
| BreadthFirstSearch.Unvisited | Algorithms/src/algs/search/BreadthFirstSearch.java:38-43 | a child is enqueued exactly when it is not yet visited |
| BreadthFirstSearch.Search | Algorithms/src/algs/search/BreadthFirstSearch.java:27-48 | a returned node is a reachable target, and no target is fewer links from the source; `null` means no reachable node is a target; a target source is returned first; the result is exactly that of `fuel` first-in-first-out rounds from a queue holding the source, so it runs out of fuel only with nodes still queued |
| BreadthFirstSearch.SearchRounds | Algorithms/src/algs/search/BreadthFirstSearch.java:32-44 | the rounds of `search` with a first-in-first-out queue: a returned node is a target; the rounds run out of fuel only with nodes still queued; a target at the front of the queue is returned at once |
| BreadthFirstSearch.MoreFuelSameOutcome | Algorithms/src/algs/search/BreadthFirstSearch.java:32-47 | once the rounds end within a budget, with a node or with an empty queue, any larger budget gives the same result |
| BreadthFirstSearch.TwoChildrenFound | Algorithms/src/algs/search/BreadthFirstSearch.java:29-43 | from 0 with children 1 and 2 and target 2, the first-in-first-out rounds return 2 within three rounds and with every larger budget |
| BreadthFirstSearch.VisitedBelow | Algorithms/src/algs/search/BreadthFirstSearch.java:32-43 | once every queued node is at depth `bound` or more, every node fewer than `bound` links away has been visited |
| BreadthFirstSearch.QueueAdvanced | Algorithms/src/algs/search/BreadthFirstSearch.java:33-43 | one round keeps the queue in depth order over at most two consecutive depths |
| BreadthFirstSearch.VisitedAdvanced | Algorithms/src/algs/search/BreadthFirstSearch.java:37-43 | one round keeps every child of a visited node visited or queued at most one level deeper |
| BreadthFirstSearch.AllVisited | Algorithms/src/algs/search/BreadthFirstSearch.java:32-47 | with the queue empty, every reachable node has been tested and failed |
| BreadthFirstSearch.SearchRoundsAsWritten | Algorithms/src/algs/search/BreadthFirstSearch.java:32-44 | the rounds of `search` as written, over the list-backed queue with `dequeue` as written: a node it returns is a target |
| BreadthFirstSearch.SearchAsWritten | Algorithms/src/algs/search/BreadthFirstSearch.java:27-48 | `search` as written starts from a new queue holding the source; a node it returns is a target |
| BreadthFirstSearch.TwoChildrenAsWrittenThrow | Algorithms/src/algs/search/BreadthFirstSearch.java:29-33 | as written, `search` throws `NullPointerException` whenever the source is not a target and has two or more children other than itself |
| BreadthFirstSearch.TwoChildrenExample | Algorithms/src/algs/search/BreadthFirstSearch.java:29-43 | from 0 with children 1 and 2 and target 2, the code as written throws although the target is one link away |
| Primes.PrimeDivisor | Algorithms/src/algs/math/numbertheory/SieveOfEratosthenes.java:24-35 | every number from 2 on has a prime divisor no larger than itself |
| Primes.NextPrime | Algorithms/src/algs/math/numbertheory/SieveOfEratosthenes.java:24-35 | there is a prime beyond every `n`, at most `n! + 1`, so the search for the next prime ends |
| Primes.PrimesUpToMembers | Algorithms/src/algs/math/numbertheory/SieveOfEratosthenes.java:24-35 | the list of primes up to `n` holds exactly the primes no larger than `n` |
| Primes.PrimesUpToAt | Algorithms/src/algs/math/numbertheory/SieveOfEratosthenes.java:55-57 | the `k`-th listed prime has exactly `k + 1` primes up to it |
| Primes.PrimeTest | Algorithms/src/algs/math/numbertheory/SieveOfEratosthenes.java:25-31 | trial division by the primes below `i` decides whether `i` is prime |
| Primes.StripFactorSpec | Algorithms/src/algs/math/numbertheory/SieveOfEratosthenes.java:59-68 | `n` is `p` to its multiplicity times a part that `p` does not divide |
| SieveOfEratosthenes.New | Algorithms/src/algs/math/numbertheory/SieveOfEratosthenes.java:10-13 | a new sieve lists exactly the primes up to 2 |
| SieveOfEratosthenes.HasListedDivisor | Algorithms/src/algs/math/numbertheory/SieveOfEratosthenes.java:25-31 | the inner loop reports whether some listed prime divides `i` |
| SieveOfEratosthenes.GetPrime | Algorithms/src/algs/math/numbertheory/SieveOfEratosthenes.java:20-37 | `getPrime(p)` throws for `p < 1`, otherwise returns the `p`-th prime; the list only grows by appending, grows to `p + 1` primes when extended, and stays exactly the primes up to its last entry |
| SieveOfEratosthenes.Extend | Algorithms/src/algs/math/numbertheory/SieveOfEratosthenes.java:24-35 | the trial-division loop only appends, ends with exactly `p + 1` primes, and keeps the list exactly the primes up to its last entry |
| SieveOfEratosthenes.IsKnownPrime | Algorithms/src/algs/math/numbertheory/SieveOfEratosthenes.java:45-47 | true exactly for the primes up to the largest one found so far |
| SieveOfEratosthenes.GetPrimeIndex | Algorithms/src/algs/math/numbertheory/SieveOfEratosthenes.java:55-57 | a listed prime gets its 1-based position, which is the number of primes up to it; any other number gets `1 - (insertion point + 1)`, at most 0 |
| SieveOfEratosthenes.IndexOfNthPrime | Algorithms/src/algs/math/numbertheory/Sieve.java:10-29 | `getPrimeIndex(getPrime(p)) == p` for every `p >= 1` |
| SieveOfEratosthenes.FactorsAsWritten | Algorithms/src/algs/math/numbertheory/SieveOfEratosthenes.java:69-81 | as written, every factor emitted is a listed prime |
| SieveOfEratosthenes.FactorsAsWrittenSorted | Algorithms/src/algs/math/numbertheory/SieveOfEratosthenes.java:69-81 | as written, the factors over increasing listed primes come in increasing order |
| SieveOfEratosthenes.PrimeFactorizeAsWritten | Algorithms/src/algs/math/numbertheory/SieveOfEratosthenes.java:69-81 | `primeFactorize` as written returns known primes in increasing order |
| SieveOfEratosthenes.FactorsAsWrittenOfPrime | Algorithms/src/algs/math/numbertheory/SieveOfEratosthenes.java:71-79 | as written, a prime over a list of distinct primes gives itself once when listed (it is added `q / q` times) and nothing otherwise |
| SieveOfEratosthenes.SixFactorsAsWritten | Algorithms/src/algs/math/numbertheory/SieveOfEratosthenes.java:69-81 | as written, 6 "factorises" over [2, 3, 5] as [2, 2, 2, 3, 3], whose product is 72 |
| SieveOfEratosthenes.FactorsTimesCofactor | Algorithms/src/algs/math/numbertheory/SieveOfEratosthenes.java:59-68 | the factors times what is left over give back `n` |
| SieveOfEratosthenes.CofactorCoprime | Algorithms/src/algs/math/numbertheory/SieveOfEratosthenes.java:59-68 | no listed prime divides what is left over, which lies in `[1, n]` |
| SieveOfEratosthenes.FactorsSorted | Algorithms/src/algs/math/numbertheory/SieveOfEratosthenes.java:59-68 | the factors come from least to greatest |
| SieveOfEratosthenes.PrimeFactorize | Algorithms/src/algs/math/numbertheory/Sieve.java:31-40 | every factor is a known prime, and `n < 1` has no factors |
| SieveOfEratosthenes.PrimeFactorizeSpec | Algorithms/src/algs/math/numbertheory/SieveOfEratosthenes.java:59-68 | the factors are sorted, their product divides `n` and is at most `n`, and it equals `n` when `n` is no larger than the largest known prime |
| SieveOfEratosthenes.KnownPrimesLeaveNoCofactor | Algorithms/src/algs/math/numbertheory/SieveOfEratosthenes.java:59-63 | when `n` is no larger than the largest known prime, the factorisation is complete |
| SieveOfEratosthenes.FactorsOfPrime | Algorithms/src/algs/math/numbertheory/SieveOfEratosthenes.java:59-68 | as documented, a prime over a list of distinct primes gives itself once when listed and nothing otherwise |
| SieveOfEratosthenes.KnownPrimeFactors | Algorithms/test/algs/math/numbertheory/SieveOfEratosthenesTest.java:36-41 | a known prime `q` factorises as `[q]`, both as written and as documented |
| SieveOfEratosthenes.SixFactors | Algorithms/src/algs/math/numbertheory/SieveOfEratosthenes.java:59-68 | with the documented factorisation, 6 over [2, 3, 5] is [2, 3] |

## Left out

- Java `int` overflow of sizes, indices, the sieve's trial divisor and its primes. These are unbounded integers here. Only the hash codes wrap (`JavaInt.Wrap`), and `primeFactorize`'s `n / prime` truncates (`JavaInt.Div`).
- Null array elements passed to `compareTo`, and `swap`/`shuffle`/`isSorted` on a null array except where stated. Arrays are sequences; `Utilities.IsSorted` takes a nullable one.
- The `Comparable` elements are a key function `T -> int`, which is a total preorder. An inconsistent `compareTo` is not modelled.
- Sort calls with an out-of-range `[low, high]`. The Java code throws `ArrayIndexOutOfBoundsException` there; the sorts' preconditions exclude it. `MergeSort.SortRange` also requires `high >= -1`, because `Arrays.copyOf(data, high + 1)` throws otherwise.
- Utilities.Shuffle: `draw` is an arbitrary function standing for `Math.random`. The property holds for every draw, so the distribution is not modelled.
- BreadthFirstSearch.Search: runs for at most `fuel` rounds and reports `OutOfFuel` when nodes are still queued after them; by `BreadthFirstSearch.MoreFuelSameOutcome` a larger budget never changes a result that is not `OutOfFuel`. The Java loop has no bound and need not end on an infinite graph, so the model states nothing about runs longer than the budget.
- BreadthFirstSearch.Search: `children` and `isTarget` are pure functions, and nodes are compared by Dafny equality in place of `HashSet`'s `equals`/`hashCode`. The queue is a first-in-first-out sequence, which is what the `Queue` view gives with the repaired `remove`. The Java `search` runs on the `Queue` view with `remove` as written and throws `NullPointerException` once a round queues two or more nodes; `BreadthFirstSearch.SearchAsWritten` models that (see Findings).
- DoublyLinkedList.SetRefines: `set(i, null)` is not modelled. Java accepts it: `setValue` has no null check, so the node then holds null, `get(i)` returns null, and `equals` and `toString` throw when they reach that node. The model's list values are non-null (`NodeChain.WellFormed`), so `Set` takes a non-null value and its contract says nothing about a null one.
- DoublyLinkedList.Set: for the same reason a null value cannot be passed. `add(null)` and `insert(i, null)` are modelled, by `AddNullable` and `InsertNullable`: the node factory throws before anything changes.
- DoublyLinkedList.Equals, HashCode and ToString: the walks stop after as many nodes as the arena holds. This differs from Java only on a state whose right links form a cycle, where the Java loops never end. No reachable state has such a cycle.
- Stack.Pop: uses the repaired `remove`, so `PushThenPop` and the other `Stack` lemmas cover valid stacks only. As written, popping the only value leaves a null root and a stale tail, which is outside `Valid`. `Stack.PopAsWritten` models that path. Its push, pop and size results still agree with the repaired ones (`Stack.RefilledStackAsWritten`), but a refilled stack then cannot be printed, and `equals` walks it from the null root.
- Pair.Equals: the `other == this` identity shortcut is not modelled, since values have no identity. It only matters for a pair with a null component compared with itself, which the model reports as throwing.
- The `equals`, `hashCode` and `toString` of `SieveOfEratosthenes`. They delegate to the prime list; the `Sieve` datatype's own equality plays that role.
- `Collections.binarySearch` in `isKnownPrime` and `getPrimeIndex` is modelled by `BinarySearch.Find`, which has the same return contract.
- The `main` methods and printing, `Utilities.testSort`, `Utilities.doublingTest`, and timing code.
- The `BinaryNode` factories `valueOf`, `withLeft` and `withRight`. `DoublyLinkedList` and the node tests use them, but `BinaryNode.java` defines only the `from` factory; they are modelled after their tests.
- Concurrency: the Java classes are not thread-safe and the model is sequential.

## Findings

| source | as written | input that shows it | evidently intended | confidence | as-written member | corrected member |
|---|---|---|---|---|---|---|
| Algorithms/src/algs/datastructures/DoublyLinkedList.java:87-95 | `insert(0, t)` calls `tmp.setLeft(root)` on the old root even when it is null | `insert(0, t)` on an empty list throws `NullPointerException` after replacing the root | inserting at index 0 of an empty list gives the one-element list, as `LinkedList.insert` documents | not executed | DoublyLinkedList.InsertFrontOfEmptyAsWrittenThrows | DoublyLinkedList.InsertRefines |
| Algorithms/src/algs/datastructures/DoublyLinkedList.java:141-147 | the tail is repaired only in an `else if` after the root case | removing the only element leaves `tail` on the removed node; a queue that is emptied and refilled then throws on `dequeue` | removing the last node also clears the tail | not executed; the tail defect is read off the code, but the queue consequence assumes `dequeue` is `remove(0)`, because `DoublyLinkedList.java` defines no `dequeue` | DoublyLinkedList.RemoveSoleAsWrittenLeavesTail, Queue.DrainedQueueAsWrittenThrows | DoublyLinkedList.RemoveRefines, Queue.DrainedQueueDequeues |
| Algorithms/src/algs/sorts/SelectionSort.java:18-32 | `sort(data, low, high)` sorts `[low, high)`, unlike the other sorts' inclusive `[low, high]` | `sort([2, 1], 0, 1)` leaves `[2, 1]` | the inclusive range that the interval tests check | not executed; medium: the inclusive intent rests on `SortTest.java`'s calls of a three-argument `isSorted(data, low, high)`, which is not in `Utilities.java`, and the abstract `SortTest.java` names no sort class | SelectionSort.InclusiveCallLeavesLastOut | SelectionSort.SortInclusive |
| Algorithms/src/algs/math/numbertheory/SieveOfEratosthenes.java:72-77 | each dividing prime is added `n / prime` times | `primeFactorize(6)` with primes [2, 3, 5] gives [2, 2, 2, 3, 3], whose product is 72 | each prime as many times as it divides `n`, with product at most `n` | not executed | SieveOfEratosthenes.SixFactorsAsWritten | SieveOfEratosthenes.PrimeFactorizeSpec |
| Algorithms/src/algs/search/BreadthFirstSearch.java:29-33 | `search` keeps its queue in `Queue.newInstance()`, a `DoublyLinkedList` whose `dequeue` is `remove(0)` as written | from 0 with children 1 and 2 and target 2: the first `dequeue` leaves a null root and a stale tail, both children are appended behind the stale tail, and the second `dequeue` walks from the null root and throws `NullPointerException` | returns 2, the nearest target | not executed; plausible, not established: the trace assumes `dequeue` is `remove(0)` and `enqueue` is `add`, because `DoublyLinkedList.java` defines neither | BreadthFirstSearch.TwoChildrenAsWrittenThrow, BreadthFirstSearch.TwoChildrenExample | BreadthFirstSearch.Search, BreadthFirstSearch.TwoChildrenFound |
