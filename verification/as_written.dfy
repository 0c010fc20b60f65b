/**
 The larger-child selection and the sift-down of pop exactly as the source
 writes them, with the special case for the root that compares slots 1 and
 2 without asking whether slot 2 is live. Two builds are modelled. With
 assertions enabled, that pop can reach a call of swap_with_parent on a slot
 at or past `used`, whose assertion then stops the program; the corrected
 selection in PriorityQueue never does. With assertions disabled, the same
 call swaps two copies of one entry and the loop ends, so the outcome equals
 the corrected pop.
 */
module AsWritten {
  import opened Heap
  import opened PriorityQueue

  /**
   How pop as written ends in a build with assertions enabled: it finishes
   with a queue, it stops at its own assertion because the queue is empty,
   or it stops at swap_with_parent's assertion because it calls that helper
   on slot `index` although `index` is not below `used`.
   */
  datatype Run<V(==)> = Finished(q: Queue<V>) | PoppedEmpty | ContractBroken(index: nat)

  /**
   big_child_index as written: for the root it picks slot 1 or 2 by priority
   alone; for other slots it consults the right child only when it is live.
   Reading slot 2 needs a third allocated slot, which every call from pop has.
   */
  function BigChildIndexAsWritten<V(==)>(q: Queue<V>, i: nat): (r: nat)
    requires q.WellFormed() && i < q.used && !IsLeaf(q, i)
    requires i == 0 && q.used == 2 ==> 2 < |q.heap|
    ensures r == Left(i) || r == Right(i)
    ensures r < q.used ==> r == BigChildIndex(q, i)
    ensures q.used <= r <==> i == 0 && q.used == 2 && q.heap[1].priority < q.heap[2].priority
  {
    if i == 0 then
      if q.heap[1].priority >= q.heap[2].priority then 1 else 2
    else if Right(i) < q.used && q.heap[Right(i)].priority > q.heap[Left(i)].priority then Right(i)
    else Left(i)
  }

  /**
   The sift-down loop of pop as written, using the as-written larger child
   both for the comparison and for the swap.
   */
  function SiftDownAsWritten<V(==)>(q: Queue<V>, i: nat): (r: Run<V>)
    requires q.WellFormed() && i < q.used
    requires i == 0 && q.used == 2 ==> 2 < |q.heap|
    ensures !r.PoppedEmpty?
    ensures r.ContractBroken? ==> i == 0 && q.used == 2 && r.index == 2
    ensures i != 0 || q.used != 2 || q.heap[2].priority <= q.heap[1].priority ==> r == Finished(SiftDown(q, i))
    decreases q.used - i
  {
    if !IsLeaf(q, i) && q.heap[i].priority <= q.heap[BigChildIndexAsWritten(q, i)].priority then
      var c := BigChildIndexAsWritten(q, i);
      if q.used <= c then ContractBroken(c)
      else SiftDownAsWritten(SwapWithParent(q, c), c)
    else Finished(q)
  }

  /**
   pop as written in a build with assertions enabled: it stops on an empty
   queue, and otherwise differs from the model's pop only in the sift-down
   it runs.
   */
  function PopAsWritten<V(==)>(q: Queue<V>): (r: Run<V>)
    requires q.WellFormed()
    ensures r.PoppedEmpty? <==> q.used == 0
    ensures r.ContractBroken? <==> q.used == 3 && q.heap[1].priority < q.heap[2].priority
    ensures r.ContractBroken? ==> r.index == 2
    ensures r.Finished? ==> r.q == Pop(q)
  {
    if q.used == 0 then PoppedEmpty
    else if q.used == 1 then Finished(Queue(q.heap, 0))
    else SiftDownAsWritten(MoveLastToRoot(q), 0)
  }

  /**
   The sift-down loop of pop as written, in a build with assertions
   disabled: swap_with_parent and is_leaf no longer stop at a slot past
   `used`, and is_leaf reports such a slot as a leaf.
   */
  function SiftDownUnchecked<V(==)>(q: Queue<V>, i: nat): (r: Queue<V>)
    requires q.WellFormed() && i < |q.heap|
    requires i == 0 && q.used == 2 ==> 2 < |q.heap|
    ensures r.WellFormed() && r.used == q.used && |r.heap| == |q.heap|
    ensures i < q.used && (i != 0 || q.used != 2 || q.heap[2].priority <= q.heap[1].priority) ==> r == SiftDown(q, i)
    decreases |q.heap| - i
  {
    if i < q.used && !IsLeaf(q, i) && q.heap[i].priority <= q.heap[BigChildIndexAsWritten(q, i)].priority then
      var c := BigChildIndexAsWritten(q, i);
      SiftDownUnchecked(Queue(Swap(q.heap, c, Parent(c)), q.used), c)
    else q
  }

  /**
   When pop's root case picks the stale slot 2 in a build with assertions
   disabled, that slot and the root hold the same entry, so the swap changes
   nothing, slot 2 then counts as a leaf, and the outcome is the corrected pop.
   */
  lemma StaleSwapIsHarmless<V>(q: Queue<V>)
    requires q.WellFormed() && 1 < q.used
    ensures q.used == 3 && q.heap[1].priority < q.heap[2].priority ==> SiftDownUnchecked(MoveLastToRoot(q), 0) == Pop(q)
  {
    if q.used == 3 && q.heap[1].priority < q.heap[2].priority {
      var m := MoveLastToRoot(q);
      assert m.heap[0] == m.heap[2] == q.heap[2] && m.heap[1] == q.heap[1];
      assert Swap(m.heap, 2, 0) == m.heap;
      assert BigChildIndexAsWritten(m, 0) == 2;
      assert SiftDownUnchecked(m, 0) == SiftDownUnchecked(m, 2) == m;
      assert BigChildIndex(m, 0) == 1;
      SiftDownExit(m, 0);
    }
  }

  /** pop as written with assertions disabled: on every queue it ends exactly where the corrected pop ends. */
  function PopUnchecked<V(==)>(q: Queue<V>): (r: Queue<V>)
    requires q.WellFormed()
    ensures r == Pop(q)
  {
    if q.used == 0 then q
    else if q.used == 1 then Queue(q.heap, 0)
    else
      StaleSwapIsHarmless(q);
      SiftDownUnchecked(MoveLastToRoot(q), 0)
  }

  /**
   The defect on a concrete heap: entries with priorities 5, 1, 3 form a
   valid heap, and popping it as written reaches swap_with_parent(2) with
   only two live entries, while the corrected pop leaves a valid heap of the
   remaining two entries with the priority-3 entry in front.
   */
  lemma PopAsWrittenBreaksOnThree<V>(a: V, b: V, c: V)
    ensures var q := Queue([Item(a, 5), Item(b, 1), Item(c, 3)], 3);
      && q.Valid()
      && PopAsWritten(q) == ContractBroken(2)
      && Pop(q).Valid() && Pop(q).Entries() == multiset{Item(b, 1), Item(c, 3)}
      && Front(Pop(q)) == c
  {
    var q := Queue([Item(a, 5), Item(b, 1), Item(c, 3)], 3);
    assert q.heap[..3] == q.heap;
    var r := Pop(q);
    assert r.Entries() == multiset{Item(b, 1), Item(c, 3)};
    assert r.heap[0] == Item(c, 3) by {
      EntriesBelowRoot(r);
    }
  }
}
