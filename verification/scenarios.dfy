/**
 Worked usage examples of the priority queue: short push/pop sequences and
 what they leave at the front.
 */
module Scenarios {
  import opened Heap
  import opened PriorityQueue

  /** Among three entries with priorities pc < pa < pb, b is in front, and popping removes exactly b. */
  lemma FrontOfThree<V>(q: Queue<V>, a: V, b: V, c: V, pa: nat, pb: nat, pc: nat)
    requires pc < pa < pb
    requires q.Valid() && q.Entries() == multiset{Item(a, pa), Item(b, pb), Item(c, pc)}
    ensures Front(q) == b
    ensures Pop(q).Entries() == multiset{Item(a, pa), Item(c, pc)}
  {
    var x, y, z := Item(a, pa), Item(b, pb), Item(c, pc);
    assert forall e :: e in q.Entries() ==> e == x || e == y || e == z;
    FrontOfUniqueMax(q, y);
    assert q.Entries() - multiset{y} == multiset{x, z};
  }

  /** Between two entries with priorities pc < pa, a is in front. */
  lemma FrontOfTwo<V>(q: Queue<V>, a: V, c: V, pa: nat, pc: nat)
    requires pc < pa
    requires q.Valid() && q.Entries() == multiset{Item(a, pa), Item(c, pc)}
    ensures Front(q) == a
  {
    assert forall e :: e in q.Entries() ==> e == Item(a, pa) || e == Item(c, pc);
    FrontOfUniqueMax(q, Item(a, pa));
  }

  /**
   Usage example: three pushes into a fresh queue keep all three entries,
   whatever the starting capacity (with capacity 2 the third push grows the
   buffer).
   */
  lemma ThreePushesKeepAll<V>(capacity: nat, a: V, b: V, c: V, pa: nat, pb: nat, pc: nat, fill: Item<V>)
    ensures var q := Push(Push(Push(Create(capacity, fill), a, pa, fill), b, pb, fill), c, pc, fill);
      q.Valid() && Size(q) == 3 && 3 <= q.Capacity()
      && q.Entries() == multiset{Item(a, pa), Item(b, pb), Item(c, pc)}
  {
  }

  /**
   Usage example: push (a, pa), (b, pb), (c, pc) with pc < pa < pb into a
   fresh queue; the front is b, and after one pop the front is a.
   */
  lemma ThreePushesThenPop<V>(capacity: nat, a: V, b: V, c: V, pa: nat, pb: nat, pc: nat, fill: Item<V>)
    requires pc < pa < pb
    ensures var q := Push(Push(Push(Create(capacity, fill), a, pa, fill), b, pb, fill), c, pc, fill);
      Front(q) == b && Front(Pop(q)) == a
  {
    ThreePushesKeepAll(capacity, a, b, c, pa, pb, pc, fill);
    var q := Push(Push(Push(Create(capacity, fill), a, pa, fill), b, pb, fill), c, pc, fill);
    FrontOfThree(q, a, b, c, pa, pb, pc);
    FrontOfTwo(Pop(q), a, c, pa, pc);
  }
}
