/**
 The priority queue as a value: the whole buffer (including the unused slots
 past `used`), the fill count, and every operation of p_queue as a pure
 function over it. The buffer length is the capacity.
 */
module PriorityQueue {
  import opened Heap

  /** The default starting capacity (declared in the class header, which is not part of this model). */
  const DefaultCapacity: nat := 1

  datatype Queue<V(==)> = Queue(heap: seq<Item<V>>, used: nat) {

    /** Number of allocated slots. */
    function Capacity(): nat { |heap| }

    /** The representation part of the class invariant: the live entries fit the buffer. */
    predicate WellFormed() { used <= |heap| }

    /** The full class invariant: well formed and a max-heap on the live slots. */
    predicate Valid() { WellFormed() && Ordered(heap, used) }

    /** The entries the queue holds, forgetting their arrangement. */
    function Entries(): multiset<Item<V>>
      requires WellFormed()
    {
      multiset(heap[..used])
    }
  }

  /** The capacity push grows a full buffer to: floor(1.5 * c) + 1. */
  function Grow(c: nat): (r: nat)
    ensures 2 * (r - 1) <= 3 * c < 2 * r
    ensures c < r
  {
    c + c / 2 + 1
  }

  /** Constructor: an empty queue; a zero request falls back to the default capacity. */
  function Create<V(==)>(initialCapacity: nat, fill: Item<V>): (q: Queue<V>)
    ensures q.Valid() && q.used == 0 && q.Entries() == multiset{}
    ensures 0 < q.Capacity()
    ensures 0 < initialCapacity ==> q.Capacity() == initialCapacity
    ensures initialCapacity == 0 ==> q.Capacity() == DefaultCapacity
  {
    var capacity := if initialCapacity == 0 then DefaultCapacity else initialCapacity;
    Queue(seq(capacity, _ => fill), 0)
  }

  /** Number of stored entries. */
  function Size<V(==)>(q: Queue<V>): (r: nat)
    requires q.WellFormed()
    ensures r == |q.Entries()|
  {
    q.used
  }

  /** Whether the queue stores nothing. */
  function Empty<V(==)>(q: Queue<V>): (r: bool)
    requires q.WellFormed()
    ensures r <==> q.Entries() == multiset{}
  {
    q.used == 0
  }

  /** The payload of the root entry, which carries a highest priority in a heap. */
  function Front<V(==)>(q: Queue<V>): (r: V)
    requires q.WellFormed() && 0 < q.used
    ensures Item(r, q.heap[0].priority) in q.Entries()
    ensures q.Valid() ==> forall e :: e in q.Entries() ==> e.priority <= q.heap[0].priority
  {
    EntriesBelowRoot(q);
    q.heap[0].data
  }

  /** Every live entry of a heap is ranked no higher than the root. */
  lemma EntriesBelowRoot<V>(q: Queue<V>)
    requires q.WellFormed() && 0 < q.used
    ensures q.heap[0] in q.Entries()
    ensures q.Valid() ==> forall e :: e in q.Entries() ==> e.priority <= q.heap[0].priority
  {
    assert q.heap[..q.used][0] == q.heap[0];
    if q.Valid() {
      forall e | e in q.Entries()
        ensures e.priority <= q.heap[0].priority
      {
        var j :| 0 <= j < q.used && q.heap[..q.used][j] == e;
        RootIsMax(q.heap, q.used, j);
      }
    }
  }

  /** Whether slot i has no child among the live slots. */
  function IsLeaf<V(==)>(q: Queue<V>, i: nat): (r: bool)
    requires q.WellFormed() && i < q.used
    ensures r <==> forall j :: 0 < j < q.used ==> Parent(j) != i
  {
    if Left(i) < q.used then ChildrenOf(i, Left(i)); false
    else
      assert forall j :: 0 < j < q.used ==> Parent(j) != i by {
        forall j | 0 < j < q.used ensures Parent(j) != i { ParentBefore(j); }
      }
      true
  }

  /** Slot of the parent of live slot i. */
  function ParentIndex<V(==)>(q: Queue<V>, i: nat): (r: nat)
    requires q.WellFormed() && 0 < i < q.used
    ensures r < i
    ensures i == Left(r) || i == Right(r)
  {
    ParentBefore(i);
    Parent(i)
  }

  /** Priority of the parent of live slot i; in a heap it is at least slot i's. */
  function ParentPriority<V(==)>(q: Queue<V>, i: nat): (r: nat)
    requires q.WellFormed() && 0 < i < q.used
    ensures r == q.heap[ParentIndex(q, i)].priority
    ensures q.Valid() ==> r >= q.heap[i].priority
  {
    q.heap[ParentIndex(q, i)].priority
  }

  /**
   The child of non-leaf slot i with the larger priority, the left one on a
   tie; the right child is considered only when it is a live slot.
   */
  function BigChildIndex<V(==)>(q: Queue<V>, i: nat): (r: nat)
    requires q.WellFormed() && i < q.used && !IsLeaf(q, i)
    ensures i < r < q.used && Parent(r) == i
    ensures forall j :: 0 < j < q.used && Parent(j) == i ==> q.heap[j].priority <= q.heap[r].priority
    ensures r == Right(i) ==> q.heap[Left(i)].priority < q.heap[Right(i)].priority
    ensures r == Left(i) || r == Right(i)
  {
    ChildrenOf(i, Left(i));
    ChildrenOf(i, Right(i));
    assert forall j :: 0 < j < q.used && Parent(j) == i ==> j == Left(i) || j == Right(i) by {
      forall j | 0 < j < q.used && Parent(j) == i ensures j == Left(i) || j == Right(i) {
        ChildrenOf(i, j);
      }
    }
    if Right(i) < q.used && q.heap[Right(i)].priority > q.heap[Left(i)].priority then Right(i)
    else Left(i)
  }

  /** Priority of the larger child of non-leaf slot i: the highest priority among i's children. */
  function BigChildPriority<V(==)>(q: Queue<V>, i: nat): (r: nat)
    requires q.WellFormed() && i < q.used && !IsLeaf(q, i)
    ensures forall j :: 0 < j < q.used && Parent(j) == i ==> q.heap[j].priority <= r
    ensures exists j :: 0 < j < q.used && Parent(j) == i && q.heap[j].priority == r
  {
    q.heap[BigChildIndex(q, i)].priority
  }

  /** Exchange live slot i with its parent; nothing else changes. */
  function SwapWithParent<V(==)>(q: Queue<V>, i: nat): (r: Queue<V>)
    requires q.WellFormed() && 0 < i < q.used
    ensures r.WellFormed() && r.used == q.used && |r.heap| == |q.heap|
    ensures r.heap[i] == q.heap[Parent(i)] && r.heap[Parent(i)] == q.heap[i]
    ensures forall j :: 0 <= j < |q.heap| && j != i && j != Parent(i) ==> r.heap[j] == q.heap[j]
    ensures r.Entries() == q.Entries()
  {
    ParentBefore(i);
    var r := Queue(Swap(q.heap, i, Parent(i)), q.used);
    SwapKeepsEntries(q.heap, q.used, i, Parent(i));
    r
  }

  /** Exchanging two live slots does not change which entries are live. */
  lemma SwapKeepsEntries<V>(s: seq<Item<V>>, n: nat, a: nat, b: nat)
    requires a < n && b < n && n <= |s|
    ensures multiset(Swap(s, a, b)[..n]) == multiset(s[..n])
  {
    assert Swap(s, a, b)[..n] == Swap(s[..n], a, b);
  }

  /** Swapping a slot with its parent twice restores the queue. */
  lemma SwapWithParentTwice<V>(q: Queue<V>, i: nat)
    requires q.WellFormed() && 0 < i < q.used
    ensures SwapWithParent(SwapWithParent(q, i), i) == q
  {
    var r := SwapWithParent(SwapWithParent(q, i), i);
    assert r.heap == q.heap;
  }

  /**
   Sift-up: while slot i is not the root and its parent has a strictly lower
   priority, exchange them and continue from the parent's slot.
   */
  function SiftUp<V(==)>(q: Queue<V>, i: nat): (r: Queue<V>)
    requires q.WellFormed() && i < q.used
    ensures r.WellFormed() && r.used == q.used && |r.heap| == |q.heap|
    ensures r.Entries() == q.Entries()
    ensures forall j :: q.used <= j < |q.heap| ==> r.heap[j] == q.heap[j]
    ensures OrderedExceptUp(q.heap, q.used, i) ==> r.Valid()
    decreases i
  {
    if i != 0 && ParentPriority(q, i) < q.heap[i].priority then
      SiftUpStep(q.heap, q.used, i);
      SiftUp(SwapWithParent(q, i), ParentIndex(q, i))
    else
      SiftUpDone(q.heap, q.used, i);
      q
  }

  /** One round of the sift-up loop: swap with the parent and continue from there. */
  lemma SiftUpUnfold<V>(q: Queue<V>, i: nat)
    requires q.WellFormed() && 0 < i < q.used && ParentPriority(q, i) < q.heap[i].priority
    ensures SiftUp(q, i) == SiftUp(SwapWithParent(q, i), ParentIndex(q, i))
  {
  }

  /** The sift-up loop exits at the root or below a parent that is not outranked. */
  lemma SiftUpExit<V>(q: Queue<V>, i: nat)
    requires q.WellFormed() && i < q.used && (i == 0 || q.heap[i].priority <= ParentPriority(q, i))
    ensures SiftUp(q, i) == q
  {
  }

  /**
   Sift-down: while slot i has a live child and its priority is at most its
   larger child's, exchange them and continue from that child's slot.
   */
  function SiftDown<V(==)>(q: Queue<V>, i: nat): (r: Queue<V>)
    requires q.WellFormed() && i < q.used
    ensures r.WellFormed() && r.used == q.used && |r.heap| == |q.heap|
    ensures r.Entries() == q.Entries()
    ensures forall j :: q.used <= j < |q.heap| ==> r.heap[j] == q.heap[j]
    ensures OrderedExceptDown(q.heap, q.used, i) ==> r.Valid()
    decreases q.used - i
  {
    if !IsLeaf(q, i) && q.heap[i].priority <= BigChildPriority(q, i) then
      var c := BigChildIndex(q, i);
      SiftDownStep(q.heap, q.used, i, c);
      SiftDown(SwapWithParent(q, c), c)
    else
      SiftDownDone(q.heap, q.used, i);
      q
  }

  /** One round of the sift-down loop: swap with the larger child and continue from there. */
  lemma SiftDownUnfold<V>(q: Queue<V>, i: nat)
    requires q.WellFormed() && i < q.used && !IsLeaf(q, i) && q.heap[i].priority <= BigChildPriority(q, i)
    ensures SiftDown(q, i) == SiftDown(SwapWithParent(q, BigChildIndex(q, i)), BigChildIndex(q, i))
  {
  }

  /** The sift-down loop exits at a leaf or above children that the entry outranks. */
  lemma SiftDownExit<V>(q: Queue<V>, i: nat)
    requires q.WellFormed() && i < q.used && (IsLeaf(q, i) || BigChildPriority(q, i) < q.heap[i].priority)
    ensures SiftDown(q, i) == q
  {
  }

  /**
   Reallocate the buffer to the requested capacity, never below the number
   of live entries; live entries are copied, the new slots hold `fill`.
   */
  function Resize<V(==)>(q: Queue<V>, newCapacity: nat, fill: Item<V>): (r: Queue<V>)
    requires q.WellFormed()
    ensures r.WellFormed() && r.used == q.used
    ensures r.heap[..r.used] == q.heap[..q.used]
    ensures r.Entries() == q.Entries()
    ensures q.used <= newCapacity ==> r.Capacity() == newCapacity
    ensures newCapacity < q.used ==> r.Capacity() == q.used
    ensures q.Valid() ==> r.Valid()
  {
    var capacity := if newCapacity < q.used then q.used else newCapacity;
    var r := Queue(q.heap[..q.used] + seq(capacity - q.used, _ => fill), q.used);
    assert r.heap[..r.used] == q.heap[..q.used];
    OrderedDependsOnPrefix(r.heap, q.heap, q.used);
    r
  }

  /**
   Copy constructor: a buffer of the same capacity holding the same live
   entries; the slots past `used` are not copied and hold `fill`.
   */
  function Copy<V(==)>(src: Queue<V>, fill: Item<V>): (r: Queue<V>)
    requires src.WellFormed()
    ensures r.WellFormed() && r.used == src.used && r.Capacity() == src.Capacity()
    ensures r.heap[..r.used] == src.heap[..src.used]
    ensures r.Entries() == src.Entries()
    ensures src.Valid() ==> r.Valid()
    ensures 0 < src.used ==> Front(r) == Front(src)
  {
    var r := Queue(src.heap[..src.used] + seq(|src.heap| - src.used, _ => fill), src.used);
    assert r.heap[..r.used] == src.heap[..src.used];
    assert 0 < src.used ==> r.heap[0] == src.heap[0] by {
      if 0 < src.used {
        assert r.heap[0] == r.heap[..r.used][0] == src.heap[..src.used][0] == src.heap[0];
      }
    }
    OrderedDependsOnPrefix(r.heap, src.heap, src.used);
    r
  }

  /** A copy is a reallocation to the same capacity. */
  lemma CopyIsResize<V>(src: Queue<V>, fill: Item<V>)
    requires src.WellFormed()
    ensures Copy(src, fill) == Resize(src, src.Capacity(), fill)
  {
  }

  /**
   Assignment `lhs = rhs`: when both name the same object (`aliased`) nothing
   changes; otherwise lhs becomes a copy of rhs in a fresh buffer.
   */
  function Assign<V(==)>(lhs: Queue<V>, rhs: Queue<V>, aliased: bool, fill: Item<V>): (r: Queue<V>)
    requires lhs.WellFormed() && rhs.WellFormed()
    requires aliased ==> lhs == rhs
    ensures aliased ==> r == lhs
    ensures r.WellFormed() && r.used == rhs.used && r.Capacity() == rhs.Capacity()
    ensures r.heap[..r.used] == rhs.heap[..rhs.used]
    ensures r.Entries() == rhs.Entries()
    ensures rhs.Valid() ==> r.Valid()
  {
    if aliased then lhs else Copy(rhs, fill)
  }

  /**
   The part of push after the growth check: write the entry into the first
   free slot, count it, and sift it up.
   */
  function Insert<V(==)>(q: Queue<V>, entry: V, priority: nat): (r: Queue<V>)
    requires q.WellFormed() && q.used < q.Capacity()
    ensures r.WellFormed() && r.used == q.used + 1 && r.Capacity() == q.Capacity()
    ensures r.Entries() == q.Entries() + multiset{Item(entry, priority)}
    ensures q.Valid() ==> r.Valid()
  {
    var appended := Queue(q.heap[q.used := Item(entry, priority)], q.used + 1);
    assert appended.heap[..appended.used] == q.heap[..q.used] + [Item(entry, priority)];
    AppendReady(q.heap, q.used, Item(entry, priority));
    SiftUp(appended, q.used)
  }

  /** Push: grow a full buffer to floor(1.5 * capacity) + 1 slots, then insert. */
  function Push<V(==)>(q: Queue<V>, entry: V, priority: nat, fill: Item<V>): (r: Queue<V>)
    requires q.WellFormed()
    ensures r.WellFormed() && r.used == q.used + 1
    ensures r.Entries() == q.Entries() + multiset{Item(entry, priority)}
    ensures q.Valid() ==> r.Valid()
    ensures q.used < q.Capacity() ==> r.Capacity() == q.Capacity()
    ensures q.used == q.Capacity() ==> r.Capacity() == Grow(q.Capacity())
  {
    var room := if q.used == q.Capacity() then Resize(q, Grow(q.Capacity()), fill) else q;
    Insert(room, entry, priority)
  }

  /** Entries after moving the last live entry into the root and dropping the last slot. */
  lemma MoveLastToRootEntries<V>(s: seq<Item<V>>, n: nat)
    requires 1 < n <= |s|
    ensures multiset(s[0 := s[n - 1]][..n - 1]) == multiset(s[..n]) - multiset{s[0]}
  {
    var t := s[0 := s[n - 1]];
    assert s[..n] == [s[0]] + s[1..n - 1] + [s[n - 1]];
    assert t[..n - 1] == [s[n - 1]] + s[1..n - 1];
  }

  /**
   The first half of pop on two or more entries: the last live entry
   overwrites the root and the count drops by one; the root entry is gone
   and what is left is ready to sink from the root.
   */
  function MoveLastToRoot<V(==)>(q: Queue<V>): (r: Queue<V>)
    requires q.WellFormed() && 1 < q.used
    ensures r.WellFormed() && r.used == q.used - 1 && |r.heap| == |q.heap|
    ensures r.Entries() == q.Entries() - multiset{q.heap[0]}
    ensures q.Valid() ==> OrderedExceptDown(r.heap, r.used, 0)
  {
    MoveLastToRootEntries(q.heap, q.used);
    RootReplaceReady(q.heap, q.used);
    Queue(q.heap[0 := q.heap[q.used - 1]], q.used - 1)
  }

  /**
   Pop: an empty queue is left alone; a single entry is dropped; otherwise
   the last entry replaces the root and sinks.
   */
  function Pop<V(==)>(q: Queue<V>): (r: Queue<V>)
    requires q.WellFormed()
    ensures r.WellFormed() && |r.heap| == |q.heap|
    ensures q.used == 0 ==> r == q
    ensures 0 < q.used ==> r.used == q.used - 1 && r.Entries() == q.Entries() - multiset{q.heap[0]}
    ensures q.Valid() ==> r.Valid()
  {
    if q.used == 0 then q
    else if q.used == 1 then
      assert q.heap[..1] == [q.heap[0]];
      Queue(q.heap, 0)
    else
      SiftDown(MoveLastToRoot(q), 0)
  }

  /** After popping a heap of two or more entries, the new root ranks no higher than the removed one. */
  lemma PopRootsNonIncreasing<V>(q: Queue<V>)
    requires q.Valid() && 1 < q.used
    ensures 0 < Pop(q).used
    ensures Pop(q).heap[0].priority <= q.heap[0].priority
  {
    var r := Pop(q);
    EntriesBelowRoot(r);
    EntriesBelowRoot(q);
    assert r.heap[0] in q.Entries();
  }

  /** The front of a heap whose entries all rank below one entry x is x's payload. */
  lemma FrontOfUniqueMax<V>(q: Queue<V>, x: Item<V>)
    requires q.Valid() && x in q.Entries()
    requires forall e :: e in q.Entries() && e != x ==> e.priority < x.priority
    ensures 0 < q.used && q.heap[0] == x && Front(q) == x.data
  {
    assert 0 < q.used;
    EntriesBelowRoot(q);
  }

  /**
   Pushing an entry that outranks everything stored makes it the front, and
   popping it again gives back exactly the stored entries.
   */
  lemma PushHigherThenPop<V>(q: Queue<V>, entry: V, priority: nat, fill: Item<V>)
    requires q.Valid()
    requires forall e :: e in q.Entries() ==> e.priority < priority
    ensures Front(Push(q, entry, priority, fill)) == entry
    ensures Pop(Push(q, entry, priority, fill)).Entries() == q.Entries()
  {
    var p := Push(q, entry, priority, fill);
    FrontOfUniqueMax(p, Item(entry, priority));
  }

  /**
   While an entry climbs from slot i, the root does not change unless the
   climbing entry outranks it.
   */
  lemma {:induction false} SiftUpKeepsRoot<V>(q: Queue<V>, i: nat)
    requires q.WellFormed() && 0 < i < q.used
    requires q.heap[i].priority <= q.heap[0].priority
    ensures SiftUp(q, i).heap[0] == q.heap[0]
    decreases i
  {
    if ParentPriority(q, i) < q.heap[i].priority {
      var p := ParentIndex(q, i);
      var s := SwapWithParent(q, i);
      assert p != 0;
      assert s.heap[p] == q.heap[i] && s.heap[0] == q.heap[0];
      SiftUpKeepsRoot(s, p);
    }
  }

  /** Pushing an entry that does not outrank the front leaves the front in place. */
  lemma PushLowerKeepsFront<V>(q: Queue<V>, entry: V, priority: nat, fill: Item<V>)
    requires q.WellFormed() && 0 < q.used
    requires priority <= q.heap[0].priority
    ensures Push(q, entry, priority, fill).heap[0] == q.heap[0]
  {
    var room := if q.used == q.Capacity() then Resize(q, Grow(q.Capacity()), fill) else q;
    assert room.heap[0] == room.heap[..room.used][0] == q.heap[..q.used][0] == q.heap[0];
    var appended := Queue(room.heap[room.used := Item(entry, priority)], room.used + 1);
    assert Push(q, entry, priority, fill) == Insert(room, entry, priority) == SiftUp(appended, room.used);
    SiftUpKeepsRoot(appended, room.used);
  }
}
