/**
 * The array-backed, fixed-capacity binary min-heap priority queue
 * (`BinaryHeapPriorityQueue`) and its fail-fast iterator (`IteratorHelper`).
 *
 * The populated slots are `minHeap[..currentSize]`; slots at or beyond
 * `currentSize` are not constrained. The heap order is kept apart from the
 * object invariant `Valid()` because `Delete` does not restore it.
 */
module BinaryHeap {
  import opened Entries
  import opened HeapOrder
  import opened Slots

  /** Capacity of a queue built without one. */
  const DefaultMaxCapacity: nat := 1000

  /** Index of the root slot (the Java field `root`, never changed). */
  const Root: nat := 0

  /** A value or nothing: Java's `null` return. */
  datatype Option<T> = None | Some(value: T)

  /** What an iterator call yields in place of the exceptions the Java iterator throws. */
  datatype Outcome<T> = Ok(value: T) | ConcurrentModification | NoSuchElement | UnsupportedOperation

  class BinaryHeapPriorityQueue {
    const minHeap: array<Entry>
    const capacity: nat
    var currentSize: nat
    var modificationCounter: nat
    var entryNumber: nat

    /**
     * Object invariant: the array has the queue's capacity, the populated
     * prefix fits in it, and every live entry carries its own sequence
     * number, drawn before the next one to be handed out.
     */
    ghost predicate Valid()
      reads this, minHeap
    {
      minHeap.Length == capacity && currentSize <= capacity &&
      SeqsBelow(multiset(minHeap[..currentSize]), entryNumber) &&
      UniqueSeqs(multiset(minHeap[..currentSize]))
    }

    /** The populated slots, in array order. */
    ghost function Live(): (s: seq<Entry>)
      reads this, minHeap
      requires Valid()
      ensures |s| == currentSize
    {
      minHeap[..currentSize]
    }

    /** The populated slots form a min-heap under the tie-broken order. */
    ghost predicate HeapOrdered()
      reads this, minHeap
      requires Valid()
    {
      IsHeap(Live())
    }

    /** `BinaryHeapPriorityQueue()`: an empty queue of the default capacity. */
    constructor ()
      ensures Valid() && HeapOrdered() && fresh(minHeap)
      ensures capacity == DefaultMaxCapacity && Live() == []
      ensures modificationCounter == 0 && entryNumber == 0
    {
      capacity := DefaultMaxCapacity;
      minHeap := new Entry[DefaultMaxCapacity];
      currentSize := 0;
      modificationCounter := 0;
      entryNumber := 0;
    }

    /** `BinaryHeapPriorityQueue(int capacity)`: an empty queue of the given capacity. */
    constructor WithCapacity(capacity: nat)
      ensures Valid() && HeapOrdered() && fresh(minHeap)
      ensures this.capacity == capacity && Live() == []
      ensures modificationCounter == 0 && entryNumber == 0
    {
      this.capacity := capacity;
      minHeap := new Entry[capacity];
      currentSize := 0;
      modificationCounter := 0;
      entryNumber := 0;
    }

    /** `new Wrapper(element)`: tag a value with the next sequence number. */
    method NewWrapper(element: int) returns (e: Entry)
      modifies this`entryNumber
      ensures e == Entry(element, old(entryNumber))
      ensures entryNumber == old(entryNumber) + 1
    {
      e := Entry(element, entryNumber);
      entryNumber := entryNumber + 1;
    }

    /**
     * Append a value and sift it up. A full queue refuses it and nothing
     * changes, not even the next sequence number.
     */
    method Insert(element: int) returns (ok: bool)
      requires Valid()
      modifies this`currentSize, this`modificationCounter, this`entryNumber, minHeap
      ensures Valid()
      ensures ok <==> old(currentSize) < capacity
      ensures !ok ==> unchanged(this) && unchanged(minHeap)
      ensures ok ==>
        && currentSize == old(currentSize) + 1
        && multiset(Live()) == old(multiset(Live())) + multiset{Entry(element, old(entryNumber))}
        && entryNumber == old(entryNumber) + 1
        && modificationCounter == old(modificationCounter) + 1
      ensures old(HeapOrdered()) ==> HeapOrdered()
    {
      if IsFull() {
        return false;
      }
      var index := currentSize;
      ghost var before := Live();
      var insertedElement := NewWrapper(element);
      ghost var slots := minHeap[..];
      minHeap[index] := insertedElement;
      ghost var grown := minHeap[..index + 1];
      assert minHeap[..index] == before && grown == before + [insertedElement] by {
        assert minHeap[..] == slots[index := insertedElement];
        AppendInto(slots, index, insertedElement);
      }
      TrickleUp(index);
      currentSize := currentSize + 1;
      modificationCounter := modificationCounter + 1;
      SiftedUpAppend(before, insertedElement, minHeap[..currentSize], entryNumber - 1);
      return true;
    }

    /**
     * Take the root's value, move the last slot to the root and sift it
     * down. An empty queue yields nothing and nothing changes.
     */
    method Remove() returns (r: Option<int>)
      requires Valid()
      modifies this`currentSize, this`modificationCounter, minHeap
      ensures Valid()
      ensures old(currentSize) == 0 ==> r == None && unchanged(this) && unchanged(minHeap)
      ensures old(currentSize) > 0 ==>
        && r == Some(old(minHeap[Root]).data)
        && currentSize == old(currentSize) - 1
        && multiset(Live()) == old(multiset(Live())) - multiset{old(minHeap[Root])}
        && modificationCounter == old(modificationCounter) + 1
        && entryNumber == old(entryNumber)
      ensures old(currentSize) > 0 && old(HeapOrdered()) ==>
        && HeapOrdered()
        && (forall e :: e in old(multiset(Live())) ==> Le(old(minHeap[Root]), e))
    {
      if IsEmpty() {
        return None;
      }
      ghost var before := Live();
      var rootElement := minHeap[Root];
      RemoveAt(Root);
      assert SeqsBelow(multiset(minHeap[..currentSize]), entryNumber) && UniqueSeqs(multiset(minHeap[..currentSize])) by {
        SubMultiset(multiset(before), multiset(minHeap[..currentSize]), entryNumber);
      }
      assert IsHeap(before) ==> forall e :: e in multiset(before) ==> Le(rootElement, e) by {
        RootIsLeast(before);
      }
      return Some(rootElement.data);
    }

    /**
     * Remove every entry whose value equals `obj`: scan the populated slots,
     * and at each match move the last slot in, shrink, sift down from the
     * match and look at the same slot again. Heap order is not restored;
     * a scan that finds no match writes nothing.
     */
    method Delete(obj: int) returns (ok: bool)
      requires Valid()
      modifies this`currentSize, this`modificationCounter, minHeap
      ensures Valid()
      ensures old(currentSize) == 0 ==> !ok && unchanged(this) && unchanged(minHeap)
      ensures NoValue(Live(), obj)
      ensures SameOffValue(multiset(Live()), old(multiset(Live())), obj)
      ensures ok <==> exists i :: 0 <= i < |old(Live())| && old(Live())[i].data == obj
      ensures ok <==> currentSize < old(currentSize)
      ensures !ok ==> currentSize == old(currentSize) && unchanged(minHeap)
      ensures !ok && old(HeapOrdered()) ==> HeapOrdered()
      ensures modificationCounter == old(modificationCounter) + (old(currentSize) - currentSize)
      ensures entryNumber == old(entryNumber)
    {
      if IsEmpty() {
        return false;
      }
      ghost var original := Live();
      var counter: int := 0;
      var lastIndex: int := currentSize - 1;
      var check := lastIndex;
      while counter < currentSize
        invariant 0 <= counter <= currentSize <= |original|
        invariant lastIndex == currentSize - 1
        invariant modificationCounter == old(modificationCounter) + (|original| - currentSize)
        invariant NoValue(minHeap[..counter], obj)
        invariant SameOffValue(multiset(minHeap[..currentSize]), multiset(original), obj)
        invariant currentSize == |original| ==> unchanged(minHeap)
        decreases currentSize - counter
      {
        var rootElement := minHeap[counter];
        if CompareData(rootElement.data, obj) == 0 {
          DeleteAt(counter, obj, multiset(original));
          lastIndex := lastIndex - 1;
          counter := counter - 1;
        } else {
          NoValueExtend(minHeap[..], counter, obj);
        }
        counter := counter + 1;
      }
      ok := lastIndex != check;
      ScanRemovedValue(original, minHeap[..currentSize], obj, entryNumber);
    }

    /**
     * One match of `delete`'s scan: remove the matching slot `index` with
     * `RemoveAt`. The scanned slots before `index` stay free of `obj`, and
     * the populated slots still agree with `original` on every other value.
     */
    method DeleteAt(index: nat, obj: int, ghost original: multiset<Entry>)
      requires index < currentSize <= minHeap.Length && minHeap[index].data == obj
      requires NoValue(minHeap[..index], obj)
      requires SameOffValue(multiset(minHeap[..currentSize]), original, obj)
      modifies this`currentSize, this`modificationCounter, minHeap
      ensures currentSize == old(currentSize) - 1
      ensures modificationCounter == old(modificationCounter) + 1
      ensures NoValue(minHeap[..index], obj)
      ensures SameOffValue(multiset(minHeap[..currentSize]), original, obj)
    {
      ghost var before := multiset(minHeap[..currentSize]);
      ghost var removed := minHeap[index];
      RemoveAt(index);
      SameOffValueRemove(before, original, obj, removed);
    }

    /**
     * The step `remove` and `delete` share: move the last populated slot
     * into slot `index`, count the change and sift the moved entry down.
     * The slots before `index` are left as they are, and sifting from the
     * root of a heap gives a heap again.
     */
    method RemoveAt(index: nat)
      requires index < currentSize <= minHeap.Length
      modifies this`currentSize, this`modificationCounter, minHeap
      ensures currentSize == old(currentSize) - 1
      ensures modificationCounter == old(modificationCounter) + 1
      ensures multiset(minHeap[..currentSize]) == old(multiset(minHeap[..currentSize])) - multiset{old(minHeap[index])}
      ensures minHeap[..index] == old(minHeap[..index])
      ensures index == Root && IsHeap(old(minHeap[..currentSize])) ==> IsHeap(minHeap[..currentSize])
    {
      ghost var slots := minHeap[..];
      ghost var before := minHeap[..currentSize];
      var lastIndex := currentSize - 1;
      minHeap[index] := minHeap[lastIndex];
      currentSize := currentSize - 1;
      modificationCounter := modificationCounter + 1;
      ghost var moved := minHeap[..currentSize];
      assert multiset(moved) == multiset(before) - multiset{slots[index]} && minHeap[..index] == slots[..index] by {
        assert minHeap[..] == slots[index := slots[lastIndex]];
        MoveLastInto(slots, index, currentSize + 1);
      }
      assert index == Root && IsHeap(before) ==> SiftDownReady(moved, Root) by {
        if index == Root && IsHeap(before) && currentSize > 0 {
          SiftDownStartAtRoot(before, moved);
        }
      }
      TrickleDown(index);
    }

    /** The root's value without changing anything; nothing when empty. */
    function Peek(): (r: Option<int>)
      reads this, minHeap
      requires Valid()
      ensures r == None <==> currentSize == 0
      ensures r.Some? ==> r.value == minHeap[Root].data
      ensures r.Some? && HeapOrdered() ==> forall i :: 0 <= i < currentSize ==> r.value <= minHeap[i].data
    {
      RootIsLeast(Live());
      if IsEmpty() then None else Some(minHeap[Root].data)
    }

    /** Whether some populated slot holds `obj`, by a scan from the root. */
    method Contains(obj: int) returns (found: bool)
      requires Valid()
      ensures found <==> exists i :: 0 <= i < currentSize && minHeap[i].data == obj
    {
      var parentIndex := JavaDiv2(Root - 1);
      while parentIndex < currentSize
        invariant 0 <= parentIndex <= currentSize
        invariant forall i :: 0 <= i < parentIndex ==> minHeap[i].data != obj
      {
        if CompareData(obj, minHeap[parentIndex].data) == 0 {
          return true;
        }
        parentIndex := parentIndex + 1;
      }
      return false;
    }

    /** Number of entries held. */
    function Size(): (n: nat)
      reads this, minHeap
      requires Valid()
      ensures n == |Live()| == |multiset(Live())|
      ensures n <= capacity
    {
      currentSize
    }

    /** Forget every entry; the slots are left as they are. */
    method Clear()
      requires Valid()
      modifies this`currentSize, this`modificationCounter
      ensures Valid() && HeapOrdered()
      ensures Live() == []
      ensures modificationCounter == old(modificationCounter) + 1
    {
      currentSize := 0;
      modificationCounter := modificationCounter + 1;
    }

    /** The queue holds no entry. */
    function IsEmpty(): (r: bool)
      reads this, minHeap
      requires Valid()
      ensures r <==> multiset(Live()) == multiset{}
    {
      currentSize == 0
    }

    /** Every slot of the array is populated. */
    function IsFull(): (r: bool)
      reads this, minHeap
      requires Valid()
      ensures r <==> |Live()| == minHeap.Length
    {
      currentSize == capacity
    }

    /** `iterator()`: a fresh iterator over the populated slots in array order. */
    method Iterator() returns (it: IteratorHelper)
      ensures fresh(it) && it.heap == this
      ensures it.iterIndex == 0 && it.stateCheck == modificationCounter
    {
      it := new IteratorHelper(this);
    }

    /** Sift the entry at `position` up towards the root. */
    method TrickleUp(position: nat)
      requires position < minHeap.Length
      modifies minHeap
      ensures minHeap[..position + 1] == SiftedUp(old(minHeap[..position + 1]), position)
      ensures IsHeap(old(minHeap[..position])) ==> IsHeap(minHeap[..position + 1])
    {
      ghost var original := minHeap[..position + 1];
      assert IsHeap(minHeap[..position]) ==> IsHeap(SiftedUp(original, position)) by {
        assert original[..position] == minHeap[..position];
        SiftUpStart(original);
        if IsHeap(minHeap[..position]) { SiftedUpIsHeap(original, position); }
      }
      var parentIndex := JavaDiv2(position - 1);
      var currentIndex := position;
      var newElement := minHeap[currentIndex];
      while currentIndex > 0 && CompareTo(minHeap[parentIndex], newElement) > 0
        invariant 0 <= currentIndex <= position
        invariant currentIndex > 0 ==> parentIndex == Parent(currentIndex)
        invariant currentIndex == 0 ==> parentIndex == 0
        invariant minHeap[currentIndex] == newElement
        invariant SiftedUp(minHeap[..position + 1], currentIndex) == SiftedUp(original, position)
        decreases currentIndex
      {
        SwappedWithin(minHeap[..], currentIndex, parentIndex, 0, position + 1);
        Swap(currentIndex, parentIndex);
        currentIndex := parentIndex;
        parentIndex := JavaDiv2(parentIndex - 1);
      }
      ghost var sifted := minHeap[..];
      minHeap[currentIndex] := newElement;
      assert minHeap[..] == sifted;
    }

    /** Sift the entry at `position` down below its smaller child, recursively. */
    method TrickleDown(position: nat)
      requires currentSize <= minHeap.Length
      modifies minHeap
      ensures multiset(minHeap[..currentSize]) == old(multiset(minHeap[..currentSize]))
      ensures position <= currentSize ==> minHeap[..position] == old(minHeap[..position])
      ensures SiftDownReady(old(minHeap[..currentSize]), position) ==> IsHeap(minHeap[..currentSize])
      decreases currentSize - position
    {
      ghost var s := minHeap[..currentSize];
      var currentIndex := position;
      var leftChildIndex := 2 * position + 1;
      var rightChildIndex := 2 * position + 2;
      if leftChildIndex < currentSize && CompareTo(minHeap[currentIndex], minHeap[leftChildIndex]) > 0 {
        currentIndex := leftChildIndex;
      }
      if rightChildIndex < currentSize && CompareTo(minHeap[currentIndex], minHeap[rightChildIndex]) > 0 {
        currentIndex := rightChildIndex;
      }
      assert SmallestOfFamily(s, position, currentIndex);
      if currentIndex != position {
        SiftDownStep(s, position, currentIndex);
        SwappedPermutes(s, position, currentIndex);
        SwappedWithin(minHeap[..], position, currentIndex, position, currentSize);
        Swap(position, currentIndex);
        ghost var swapped := minHeap[..];
        TrickleDown(currentIndex);
        PrefixAgrees(minHeap[..], swapped, position, currentIndex);
      } else {
        SiftDownDone(s, position);
      }
    }

    /** Exchange two slots. */
    method Swap(a: nat, b: nat)
      requires a < minHeap.Length && b < minHeap.Length
      modifies minHeap
      ensures minHeap[..] == Swapped(old(minHeap[..]), a, b)
    {
      var swappedElements := minHeap[a];
      minHeap[a] := minHeap[b];
      minHeap[b] := swappedElements;
    }
  }

  /**
   * Appending an entry with a fresh sequence number to the populated slots
   * and sifting it up adds exactly that entry, keeps the bookkeeping of
   * sequence numbers and turns a heap into a heap.
   */
  lemma SiftedUpAppend(before: seq<Entry>, e: Entry, r: seq<Entry>, bound: nat)
    requires r == SiftedUp(before + [e], |before|)
    requires SeqsBelow(multiset(before), bound) && UniqueSeqs(multiset(before)) && e.sequenceNumber == bound
    ensures multiset(r) == multiset(before) + multiset{e}
    ensures SeqsBelow(multiset(r), bound + 1) && UniqueSeqs(multiset(r))
    ensures IsHeap(before) ==> IsHeap(r)
  {
    var grown := before + [e];
    SiftedUpPermutes(grown, |before|);
    AddFresh(multiset(before), bound, e);
    assert grown[..|before|] == before;
    SiftUpStart(grown);
    if IsHeap(before) {
      SiftedUpIsHeap(grown, |before|);
    }
  }

  /** The root of a heap is below every other slot, strictly when sequence numbers are unique. */
  lemma RootIsLeast(s: seq<Entry>)
    ensures IsHeap(s) ==> forall e :: e in multiset(s) ==> Le(s[0], e)
    ensures IsHeap(s) && UniqueSeqs(multiset(s)) ==> forall j :: 0 < j < |s| ==> CompareTo(s[0], s[j]) < 0
  {
    if IsHeap(s) {
      forall j | 0 <= j < |s| ensures Le(s[0], s[j]) {
        HeapRootIsMinimum(s, j);
      }
      if UniqueSeqs(multiset(s)) {
        forall j | 0 < j < |s| ensures CompareTo(s[0], s[j]) < 0 {
          DistinctSlots(s, 0, j);
        }
      }
    }
  }

  /**
   * The step `delete` takes at a match does not restore heap order: in the
   * heap of values [1, 10, 2, 11, 12, 3, 4], deleting 11 moves 4 into slot 3,
   * which has no populated child, so the sift-down there stops at once and
   * 4 is left below its parent 10.
   */
  lemma DeleteCanBreakHeapOrder()
    ensures var s := [Entry(1, 0), Entry(10, 1), Entry(2, 2), Entry(11, 3), Entry(12, 4), Entry(3, 5), Entry(4, 6)];
            var t := s[3 := s[6]][..6];
            IsHeap(s) && SmallestOfFamily(t, 3, 3) && !IsHeap(t)
  {
    var s := [Entry(1, 0), Entry(10, 1), Entry(2, 2), Entry(11, 3), Entry(12, 4), Entry(3, 5), Entry(4, 6)];
    var t := s[3 := s[6]][..6];
    forall i | 0 < i < |s| ensures EdgeOk(s, i) {
      assert i == 1 || i == 2 || i == 3 || i == 4 || i == 5 || i == 6;
    }
    assert !EdgeOk(t, 3);
  }

  /**
   * `IteratorHelper`: walks the populated slots in array order and fails once
   * the queue's modification counter differs from the one it started with.
   */
  class IteratorHelper {
    const heap: BinaryHeapPriorityQueue
    var iterIndex: nat
    var stateCheck: nat

    constructor (heap: BinaryHeapPriorityQueue)
      ensures this.heap == heap && iterIndex == 0
      ensures stateCheck == heap.modificationCounter
    {
      this.heap := heap;
      iterIndex := 0;
      stateCheck := heap.modificationCounter;
    }

    /** Fails after any change to the queue; otherwise tells whether a slot is left. */
    function HasNext(): (r: Outcome<bool>)
      reads this, heap
      ensures r == ConcurrentModification <==> stateCheck != heap.modificationCounter
      ensures r.Ok? <==> stateCheck == heap.modificationCounter
      ensures r.Ok? ==> (r.value <==> iterIndex < heap.currentSize)
    {
      if stateCheck != heap.modificationCounter then ConcurrentModification
      else Ok(iterIndex < heap.currentSize)
    }

    /** The next slot's value; the failure of `HasNext`, or no such element at the end. */
    method Next() returns (r: Outcome<int>)
      requires heap.Valid()
      modifies this`iterIndex
      ensures old(HasNext()) == ConcurrentModification ==> r == ConcurrentModification && iterIndex == old(iterIndex)
      ensures old(HasNext()) == Ok(false) ==> r == NoSuchElement && iterIndex == old(iterIndex)
      ensures old(HasNext()) == Ok(true) ==>
        r == Ok(heap.minHeap[old(iterIndex)].data) && iterIndex == old(iterIndex) + 1
    {
      var more := HasNext();
      if more.ConcurrentModification? {
        return ConcurrentModification;
      }
      if !more.value {
        return NoSuchElement;
      }
      var nextElement := heap.minHeap[iterIndex];
      iterIndex := iterIndex + 1;
      return Ok(nextElement.data);
    }

    /** Removal through the iterator is never supported. */
    method Remove() returns (r: Outcome<()>)
      ensures r == UnsupportedOperation
    {
      return UnsupportedOperation;
    }
  }
}
