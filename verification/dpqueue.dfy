/**
 p_queue as an object: a heap-allocated array of entries with its capacity
 and fill count, and the member functions written as in-place array code,
 with the corrected larger-child selection. `Model()` reads the object as a
 Queue. Push (when there is room), Pop, the two sift loops, SwapWithParent
 and the query functions are proved equal to the value model in
 PriorityQueue; each sift loop keeps "the model's sift from here ends where
 the model's sift from the start ends" as its invariant. The constructors,
 Assign, Resize and Push on a full array are specified directly on the
 fields, since the slots they allocate hold unspecified entries.
 */
module DPQueue {
  import opened Heap
  import opened PriorityQueue

  class PQueue<V(0,==)> {
    var heap: array<Item<V>>
    var capacity: nat
    var used: nat

    /** The object read as a value: the whole array and the fill count. */
    ghost function Model(): Queue<V>
      reads this, heap
    {
      Queue(heap[..], used)
    }

    /** The representation part of the class invariant. */
    ghost predicate WellFormed()
      reads this, heap
    {
      capacity == heap.Length && used <= capacity
    }

    /** The class invariant: well formed and a max-heap on heap[0..used). */
    ghost predicate Valid()
      reads this, heap
    {
      WellFormed() && Model().Valid()
    }

    /** An empty queue; a zero capacity request falls back to the default. */
    constructor (initialCapacity: nat)
      ensures Valid() && fresh(heap) && used == 0
      ensures 0 < capacity
      ensures 0 < initialCapacity ==> capacity == initialCapacity
      ensures initialCapacity == 0 ==> capacity == DefaultCapacity
    {
      var n := initialCapacity;
      if n == 0 {
        n := DefaultCapacity;
      }
      capacity := n;
      used := 0;
      heap := new Item<V>[n];
    }

    /** Copy constructor: same capacity and entries, in an array of its own. */
    constructor Copy(src: PQueue<V>)
      requires src.Valid()
      ensures Valid() && fresh(heap)
      ensures capacity == src.capacity && used == src.used
      ensures heap[..used] == src.heap[..src.used]
    {
      capacity := src.capacity;
      used := src.used;
      heap := new Item<V>[src.capacity];
      new;
      var i := 0;
      while i < used
        invariant i <= used <= capacity == heap.Length
        invariant heap[..i] == src.heap[..i]
        modifies heap
      {
        heap[i] := src.heap[i];
        i := i + 1;
      }
      assert heap[..][..used] == src.heap[..][..used];
      OrderedDependsOnPrefix(heap[..], src.heap[..], used);
    }

    /** Assignment: a deep copy of rhs, or nothing at all when rhs is this very object. */
    method Assign(rhs: PQueue<V>)
      requires Valid() && rhs.Valid()
      modifies this
      ensures Valid()
      ensures capacity == old(rhs.capacity) && used == old(rhs.used)
      ensures heap[..used] == old(rhs.heap[..rhs.used])
      ensures rhs == this ==> heap == old(heap) && heap[..] == old(heap[..])
      ensures rhs != this ==> fresh(heap)
    {
      if this != rhs {
        var newHeap := new Item<V>[rhs.capacity];
        var i := 0;
        while i < rhs.used
          invariant i <= rhs.used <= rhs.capacity == newHeap.Length
          invariant newHeap[..i] == rhs.heap[..i]
          modifies newHeap
        {
          newHeap[i] := rhs.heap[i];
          i := i + 1;
        }
        assert newHeap[..][..rhs.used] == rhs.heap[..][..rhs.used];
        OrderedDependsOnPrefix(newHeap[..], rhs.heap[..], rhs.used);
        heap := newHeap;
        capacity := rhs.capacity;
        used := rhs.used;
      }
    }

    /** Push: grow a full array to floor(1.5 * capacity) + 1 slots, append the entry, sift it up. */
    method Push(entry: V, priority: nat)
      requires Valid()
      modifies this, heap
      ensures Valid()
      ensures used == old(used) + 1
      ensures Model().Entries() == old(Model().Entries()) + multiset{Item(entry, priority)}
      ensures old(used) < old(capacity) ==> heap == old(heap) && Model() == Insert(old(Model()), entry, priority)
      ensures old(used) == old(capacity) ==> fresh(heap) && capacity == Grow(old(capacity))
    {
      if used == capacity {
        Resize(Grow(capacity));
      }
      ghost var room := Model();
      assert room.Valid() && room.used < room.Capacity();
      assert room.Entries() == old(Model().Entries());
      var i := used;
      heap[used] := Item(entry, priority);
      used := used + 1;
      assert Model() == Queue(room.heap[room.used := Item(entry, priority)], room.used + 1);
      SiftUpFrom(i);
      assert Model() == Insert(room, entry, priority);
    }

    /** The sift-up loop of push, from slot i. */
    method SiftUpFrom(i0: nat)
      requires WellFormed() && i0 < used
      modifies heap
      ensures WellFormed()
      ensures Model() == PriorityQueue.SiftUp(old(Model()), i0)
    {
      var i: nat := i0;
      while i != 0 && ParentPriority(i) < heap[i].priority
        invariant WellFormed() && i < used
        invariant PriorityQueue.SiftUp(Model(), i) == PriorityQueue.SiftUp(old(Model()), i0)
        decreases i
      {
        SiftUpUnfold(Model(), i);
        SwapWithParent(i);
        i := ParentIndex(i);
      }
      SiftUpExit(Model(), i);
    }

    /**
     Pop: an empty queue is left alone (the source also reports the misuse
     on the error stream); otherwise the last entry replaces the root and
     sinks.
     */
    method Pop()
      requires Valid()
      modifies this, heap
      ensures Valid() && heap == old(heap) && capacity == old(capacity)
      ensures Model() == PriorityQueue.Pop(old(Model()))
      ensures old(used) == 0 ==> used == 0 && heap[..] == old(heap[..])
      ensures 0 < old(used) ==> used == old(used) - 1
      ensures 0 < old(used) ==> Model().Entries() == old(Model().Entries()) - multiset{old(heap[0])}
    {
      if used == 0 {
        return;
      }
      if used == 1 {
        used := used - 1;
        return;
      }
      heap[0] := heap[used - 1];
      used := used - 1;
      assert Model() == MoveLastToRoot(old(Model()));
      SiftDownFrom(0);
    }

    /** The sift-down loop of pop, from slot i. */
    method SiftDownFrom(i0: nat)
      requires WellFormed() && i0 < used
      modifies heap
      ensures WellFormed()
      ensures Model() == PriorityQueue.SiftDown(old(Model()), i0)
    {
      var i: nat := i0;
      while !IsLeaf(i) && heap[i].priority <= BigChildPriority(i)
        invariant WellFormed() && i < used
        invariant PriorityQueue.SiftDown(Model(), i) == PriorityQueue.SiftDown(old(Model()), i0)
        decreases used - i
      {
        SiftDownUnfold(Model(), i);
        var childIndex := BigChildIndex(i);
        SwapWithParent(BigChildIndex(i));
        i := childIndex;
      }
      SiftDownExit(Model(), i);
    }

    /** Number of stored entries. */
    function Size(): (r: nat)
      reads this, heap
      requires WellFormed()
      ensures r == PriorityQueue.Size(Model())
    {
      used
    }

    /** Whether nothing is stored. */
    function Empty(): (r: bool)
      reads this, heap
      requires WellFormed()
      ensures r == PriorityQueue.Empty(Model())
    {
      used == 0
    }

    /** Payload of the root entry. */
    function Front(): (r: V)
      reads this, heap
      requires WellFormed() && 0 < used
      ensures r == PriorityQueue.Front(Model())
    {
      heap[0].data
    }

    /** Reallocate to newCapacity slots, never fewer than used, copying the live entries. */
    method Resize(newCapacity: nat)
      requires Valid()
      modifies this
      ensures Valid() && fresh(heap) && used == old(used)
      ensures heap[..used] == old(heap[..used])
      ensures Model().Entries() == old(Model().Entries())
      ensures old(used) <= newCapacity ==> capacity == newCapacity
      ensures newCapacity < old(used) ==> capacity == old(used)
    {
      var n := newCapacity;
      if n < used {
        n := used;
      }
      var newHeap := new Item<V>[n];
      var i := 0;
      while i < used
        invariant i <= used <= n == newHeap.Length
        invariant newHeap[..i] == heap[..i]
        modifies newHeap
      {
        newHeap[i] := heap[i];
        i := i + 1;
      }
      assert newHeap[..][..used] == heap[..][..used];
      OrderedDependsOnPrefix(newHeap[..], heap[..], used);
      capacity := n;
      heap := newHeap;
    }

    /** Whether slot i has no live child. */
    function IsLeaf(i: nat): (r: bool)
      reads this, heap
      requires WellFormed() && i < used
      ensures r == PriorityQueue.IsLeaf(Model(), i)
    {
      2 * i + 1 >= used
    }

    /** Slot of the parent of live slot i. */
    function ParentIndex(i: nat): (r: nat)
      reads this, heap
      requires WellFormed() && 0 < i < used
      ensures r == PriorityQueue.ParentIndex(Model(), i)
    {
      (i - 1) / 2
    }

    /** Priority of the parent of live slot i. */
    function ParentPriority(i: nat): (r: nat)
      reads this, heap
      requires WellFormed() && 0 < i < used
      ensures r == PriorityQueue.ParentPriority(Model(), i)
    {
      heap[ParentIndex(i)].priority
    }

    /** The larger live child of non-leaf slot i, the left one on a tie. */
    function BigChildIndex(i: nat): (r: nat)
      reads this, heap
      requires WellFormed() && i < used && !IsLeaf(i)
      ensures r == PriorityQueue.BigChildIndex(Model(), i)
    {
      var left := 2 * i + 1;
      var right := 2 * i + 2;
      if right < used && heap[right].priority > heap[left].priority then right else left
    }

    /** Priority of the larger live child of non-leaf slot i. */
    function BigChildPriority(i: nat): (r: nat)
      reads this, heap
      requires WellFormed() && i < used && !IsLeaf(i)
      ensures r == PriorityQueue.BigChildPriority(Model(), i)
    {
      heap[BigChildIndex(i)].priority
    }

    /** Exchange live slot i with its parent in place. */
    method SwapWithParent(i: nat)
      requires WellFormed() && 0 < i < used
      modifies heap
      ensures WellFormed()
      ensures Model() == PriorityQueue.SwapWithParent(old(Model()), i)
    {
      var parent := ParentIndex(i);
      var holder := heap[parent];
      heap[parent] := heap[i];
      heap[i] := holder;
    }
  }
}
