# Binary heap priority queue

A model of `BinaryHeapPriorityQueue`. It is a bounded min-priority queue kept
as a binary min-heap in a fixed-length array. Each element is wrapped with the
sequence number it received on insertion, so equal elements leave in insertion
order while heap order holds. It also models the fail-fast iterator `IteratorHelper`. The iterator
walks the populated slots in array order and fails once the queue's
modification counter has moved.

The project has four modules:

- `Entries` (`entries.dfy`): the `Wrapper` class as the datatype `Entry`, and
  its tie-broken comparison.
- `HeapOrder` (`heap_order.dfy`):
  - the heap property over the populated prefix;
  - Java's truncating division, used for parent indices;
  - the one-step facts for sift-up and sift-down;
  - `SiftedUp`, the result of a whole sift-up as a function.
- `Slots` (`slots.dfy`):
  - what removing a slot by moving the last one in does to the multiset of
    entries;
  - the reference filter `WithoutValue`, which `delete` is measured against;
  - the bookkeeping of sequence numbers.
- `BinaryHeap` (`priority_queue.dfy`): the class `BinaryHeapPriorityQueue`,
  with the array `minHeap` and the fields `capacity`, `currentSize`,
  `modificationCounter` and `entryNumber`, its operations as methods, and the
  class `IteratorHelper`.

`Valid()` is the object invariant. It says:

- the array has the queue's capacity, and `0 <= currentSize <= capacity`;
- every live entry carries a sequence number below `entryNumber`;
- no sequence number is shared.

Heap order (`HeapOrdered()`) is kept apart from `Valid()`, because `delete`
does not restore it. `insert`, `remove` and `clear` each promise that a heap
stays a heap.

## Model

| member | source | states |
|---|---|---|
| `Entries.CompareData` | BinaryHeapPriorityQueue.java:56 | the element comparison is negative, zero or positive exactly when the first value is smaller, equal or larger |
| `Entries.CompareTo` | BinaryHeapPriorityQueue.java:55-60 | `Wrapper.compareTo` is negative exactly when the value is smaller, or equal with an earlier sequence number; zero only for identical entries |
| `Entries.LeTotal` | BinaryHeapPriorityQueue.java:55-60 | any two entries are comparable |
| `Entries.LeTransitive` | BinaryHeapPriorityQueue.java:55-60 | the entry order is transitive |
| `Entries.LeAntisymmetric` | BinaryHeapPriorityQueue.java:55-60 | entries that are each no larger than the other are identical |
| `Entries.CompareToFlip` | BinaryHeapPriorityQueue.java:55-60 | swapping the operands negates `compareTo` |
| `HeapOrder.JavaDiv2` | BinaryHeapPriorityQueue.java:178 | Java's `/ 2` rounds toward zero, for negative operands too |
| `HeapOrder.JavaDivOfMinusOne` | BinaryHeapPriorityQueue.java:150 | `(root - 1) / 2` is 0 in Java, where Dafny's `/` gives -1 |
| `HeapOrder.Parent` | BinaryHeapPriorityQueue.java:184 | the parent of a non-root slot precedes it, and the slot is the parent's left or right child |
| `HeapOrder.IsHeapIffChildrenOrdered` | BinaryHeapPriorityQueue.java:9-13 | the heap property stated on parents (each non-root slot is no smaller than its parent) and on children (each populated child is no smaller than its slot) agree |
| `HeapOrder.HeapRootIsMinimum` | BinaryHeapPriorityQueue.java:9-13 | in a heap the root is no larger than any populated slot |
| `HeapOrder.HeapRootIsOldestOfItsValue` | BinaryHeapPriorityQueue.java:19-23 | stability: among equal values in a heap, the root has the smallest sequence number |
| `HeapOrder.Swapped` | BinaryHeapPriorityQueue.java:203-207 | exchanging two slots keeps the length, exchanges those two slots and leaves every other slot as it was |
| `HeapOrder.SwappedPermutes` | BinaryHeapPriorityQueue.java:203-207 | an exchange keeps the multiset of entries |
| `HeapOrder.SiftUpStart` | BinaryHeapPriorityQueue.java:83-86 | a heap with a new entry in the next slot breaks order at most on the edge into the new slot |
| `HeapOrder.SiftUpStep` | BinaryHeapPriorityQueue.java:181-184 | exchanging a slot with its larger parent moves the only possible break up to the parent |
| `HeapOrder.SiftUpDone` | BinaryHeapPriorityQueue.java:181 | when the sift-up stops, at the root or under a parent that is no larger, the slots form a heap |
| `HeapOrder.SiftedUp` | BinaryHeapPriorityQueue.java:181-185 | the slots after trickleUp's loop: while the slot is not the root and its parent compares larger, exchange them and continue at the parent; the length is kept (what the result means is stated by the next two rows) |
| `HeapOrder.SiftedUpPermutes` | BinaryHeapPriorityQueue.java:177-187 | a sift-up only permutes the slots |
| `HeapOrder.SiftedUpIsHeap` | BinaryHeapPriorityQueue.java:177-187 | sifting up the only slot that breaks heap order yields a heap |
| `HeapOrder.SiftDownStartAtRoot` | BinaryHeapPriorityQueue.java:98-103 | after the last slot is moved to the root of a heap, order can break only on the edges out of the root |
| `HeapOrder.SiftDownStep` | BinaryHeapPriorityQueue.java:193-199 | exchanging a slot with its least child moves the only possible break down to that child |
| `HeapOrder.SiftDownDone` | BinaryHeapPriorityQueue.java:197 | when no child is smaller than the slot, the slots form a heap |
| `Slots.WithoutValueCount` | BinaryHeapPriorityQueue.java:115-139 | the reference filter for delete keeps the multiplicity of every other value and removes every entry of the value |
| `Slots.WithoutValueShorter` | BinaryHeapPriorityQueue.java:136-138 | the filter is shorter than its input exactly when the input held the value |
| `Slots.WithoutValueNoMatch` | BinaryHeapPriorityQueue.java:136-138 | filtering a value that is absent changes nothing |
| `Slots.MoveLastInto` | BinaryHeapPriorityQueue.java:126-129 | moving the last populated slot into slot `i` and shrinking removes exactly the entry at `i` |
| `Slots.SameOffValueRemove` | BinaryHeapPriorityQueue.java:125-130 | removing one entry of the deleted value keeps agreement on every other entry |
| `Slots.RemovedValueIsFilter` | BinaryHeapPriorityQueue.java:115-139 | slots that hold no entry of the value and agree with the original on every other entry are exactly the reference filter |
| `Slots.FilterIsRemovedValue` | BinaryHeapPriorityQueue.java:115-139 | conversely, the reference filter holds no entry of the value and agrees with the original on every other entry |
| `Slots.ScanRemovedValue` | BinaryHeapPriorityQueue.java:119-138 | at the end of the scan, fewer slots are left exactly when the original held the value; the bounds on sequence numbers and their uniqueness survive |
| `Slots.AddFresh` | BinaryHeapPriorityQueue.java:50-53 | an entry with the next sequence number keeps sequence numbers unique and below the new counter |
| `Slots.SubMultiset` | BinaryHeapPriorityQueue.java:101 | taking entries out keeps sequence numbers unique and bounded |
| `Slots.DistinctSlots` | BinaryHeapPriorityQueue.java:46-52 | with unique sequence numbers, distinct populated slots hold distinct entries |
| `BinaryHeap.BinaryHeapPriorityQueue.constructor` | BinaryHeapPriorityQueue.java:68 | an empty, valid heap of capacity 1000 with counters at zero |
| `BinaryHeap.BinaryHeapPriorityQueue.WithCapacity` | BinaryHeapPriorityQueue.java:70-77 | an empty, valid heap of the given capacity with counters at zero |
| `BinaryHeap.BinaryHeapPriorityQueue.NewWrapper` | BinaryHeapPriorityQueue.java:50-53 | the new entry takes the current `entryNumber` as its sequence number, and the counter grows by one |
| `BinaryHeap.BinaryHeapPriorityQueue.Insert` | BinaryHeapPriorityQueue.java:79-90 | refuses and changes nothing when full. Otherwise: adds exactly the new entry with the next sequence number; size, `entryNumber` and `modificationCounter` each grow by one; heap order is kept |
| `BinaryHeap.SiftedUpAppend` | BinaryHeapPriorityQueue.java:83-86 | appending a fresh entry and sifting it up adds exactly that entry, keeps sequence numbers unique and bounded, and turns a heap into a heap |
| `BinaryHeap.BinaryHeapPriorityQueue.Remove` | BinaryHeapPriorityQueue.java:92-105 | nothing, with no change, when empty. Otherwise: the root's value; exactly the root entry leaves; size drops by one and `modificationCounter` grows by one; on a heap the removed entry is no larger than any entry held, and heap order is restored |
| `BinaryHeap.RootIsLeast` | BinaryHeapPriorityQueue.java:98 | the root of a heap is no larger than every entry; with unique sequence numbers, strictly smaller than every other slot |
| `BinaryHeap.BinaryHeapPriorityQueue.RemoveAt` | BinaryHeapPriorityQueue.java:98-103 | moving the last slot into slot `index`, shrinking and sifting down removes exactly the entry at `index`, counts one change, keeps the earlier slots, and restores heap order when `index` is the root |
| `BinaryHeap.BinaryHeapPriorityQueue.DeleteAt` | BinaryHeapPriorityQueue.java:124-132 | one match of delete's scan: the slots already scanned stay free of the value, and agreement with the original on other values is kept |
| `BinaryHeap.BinaryHeapPriorityQueue.Delete` | BinaryHeapPriorityQueue.java:115-139 | false, with no change, when empty. Otherwise: no entry of the value is left; every other entry is kept with its multiplicity; the result is true exactly when the value was present, that is, exactly when the size shrank; a scan that finds nothing leaves the size and the array untouched, so a heap stays a heap; `modificationCounter` grows by the number removed |
| `BinaryHeap.DeleteCanBreakHeapOrder` | BinaryHeapPriorityQueue.java:107-131 | a concrete heap in which delete's move-last-in and sift-down leave a slot below a larger parent |
| `BinaryHeap.BinaryHeapPriorityQueue.Peek` | BinaryHeapPriorityQueue.java:141-146 | nothing exactly when empty; otherwise the root's value, which on a heap is no larger than any value held |
| `BinaryHeap.BinaryHeapPriorityQueue.Contains` | BinaryHeapPriorityQueue.java:148-157 | true exactly when some populated slot holds the value; the scan starts at slot 0 |
| `BinaryHeap.BinaryHeapPriorityQueue.Size` | BinaryHeapPriorityQueue.java:160 | the number of entries held, at most the capacity |
| `BinaryHeap.BinaryHeapPriorityQueue.Clear` | BinaryHeapPriorityQueue.java:162-166 | no entry remains, the heap is valid and ordered, and `modificationCounter` grows by one |
| `BinaryHeap.BinaryHeapPriorityQueue.IsEmpty` | BinaryHeapPriorityQueue.java:169 | true exactly when no entry is held |
| `BinaryHeap.BinaryHeapPriorityQueue.IsFull` | BinaryHeapPriorityQueue.java:172 | true exactly when every slot of the array is populated |
| `BinaryHeap.BinaryHeapPriorityQueue.Iterator` | BinaryHeapPriorityQueue.java:175 | a fresh iterator at slot 0 that records the current `modificationCounter` |
| `BinaryHeap.BinaryHeapPriorityQueue.TrickleUp` | BinaryHeapPriorityQueue.java:177-187 | the prefix up to `position` becomes the sift-up of `position` (`SiftedUp`); a heap extended by one slot becomes a heap |
| `BinaryHeap.BinaryHeapPriorityQueue.TrickleDown` | BinaryHeapPriorityQueue.java:189-201 | the populated slots are permuted, those before `position` are kept, and a sift-down from the only break in order yields a heap |
| `BinaryHeap.BinaryHeapPriorityQueue.Swap` | BinaryHeapPriorityQueue.java:203-207 | the array becomes the exchange of the two slots |
| `BinaryHeap.IteratorHelper.constructor` | BinaryHeapPriorityQueue.java:213-216 | the iterator starts at slot 0 and records the queue's `modificationCounter` |
| `BinaryHeap.IteratorHelper.HasNext` | BinaryHeapPriorityQueue.java:219-223 | fails exactly when the queue's counter differs from the recorded one; otherwise tells whether a populated slot is left |
| `BinaryHeap.IteratorHelper.Next` | BinaryHeapPriorityQueue.java:226-231 | passes on `HasNext`'s failure; reports no such element at the end; otherwise yields the value of the current slot and advances by one |
| `BinaryHeap.IteratorHelper.Remove` | BinaryHeapPriorityQueue.java:233-235 | always unsupported |

## Left out

- Generics: elements are `int`, and `Comparable.compareTo` is the three-way integer comparison `CompareData`.
- `CompareTo`: the `(int)` cast of the `long` difference of sequence numbers is not modelled. The difference is taken as an unbounded integer, so an overflow of the cast cannot flip the sign.
- Integer widths: `currentSize`, `modificationCounter`, `entryNumber` and the child index `2 * position + 1` are unbounded. Java's `int` and `long` wrap-around is not modelled.
- `WithCapacity`: a negative capacity, for which Java throws when it creates the array, is excluded by the type `nat`.
- The `null` written into vacated slots (lines 100 and 127) is not modelled. Slots at or beyond `currentSize` are unconstrained and never read.
- The field `lastIndex` is not kept. `remove` and `delete` always reset it to `currentSize - 1` before use, so the model keeps it as a local of `delete`, together with `check`.
- `toString` of `Wrapper` and the `PriorityQueue` interface: both are outside the model.
- Exceptions of the iterator: they become the `Outcome` values `ConcurrentModification`, `NoSuchElement` and `UnsupportedOperation`.
- `Delete`: no heap-order promise once an entry has been removed; when nothing matches, the array is untouched and a heap stays a heap. The doc comment at lines 107-113 says delete preserves heap order, but the code only sifts down from each match. `DeleteCanBreakHeapOrder` shows [1, 10, 2, 11, 12, 3, 4] followed by `delete(11)` leaving 4 below 10. The model follows the code.
- `TrickleUp`, `TrickleDown`: the contracts do not state that the slots at or beyond `currentSize` are left alone.
- `RemoveAt` and `DeleteAt` are named steps of `remove` and `delete`. The Java code writes them inline.
