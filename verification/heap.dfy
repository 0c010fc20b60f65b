/**
 The array layout of a binary max-heap: entries, the parent/child index
 arithmetic, the heap property on a prefix of a buffer, and the two "almost a
 heap" shapes that the sift-up and sift-down passes keep as loop invariants.
 */
module Heap {

  /** One stored entry: an opaque payload and its priority (an unsigned size). */
  datatype Item<V> = Item(data: V, priority: nat)

  /** Slot of the parent of slot i. */
  function Parent(i: nat): nat
    requires 0 < i
  {
    (i - 1) / 2
  }

  /** Slot of the left child of slot i. */
  function Left(i: nat): nat { 2 * i + 1 }

  /** Slot of the right child of slot i. */
  function Right(i: nat): nat { 2 * i + 2 }

  /** Exchange the entries in slots a and b. */
  function Swap<V>(s: seq<Item<V>>, a: nat, b: nat): (t: seq<Item<V>>)
    requires a < |s| && b < |s|
    ensures |t| == |s|
    ensures t[a] == s[b] && t[b] == s[a]
    ensures forall j :: 0 <= j < |s| && j != a && j != b ==> t[j] == s[j]
  {
    s[a := s[b]][b := s[a]]
  }

  /** The max-heap property on the first n slots of s: no entry outranks its parent. */
  predicate Ordered<V>(s: seq<Item<V>>, n: nat)
    requires n <= |s|
  {
    forall j :: 0 < j < n ==> s[Parent(j)].priority >= s[j].priority
  }

  /**
   The shape kept while an entry climbs from slot k: every parent/child edge
   holds except the one from k to its parent, and k's parent already
   outranks k's children.
   */
  predicate OrderedExceptUp<V>(s: seq<Item<V>>, n: nat, k: nat)
    requires k < n <= |s|
  {
    && (forall j :: 0 < j < n && j != k ==> s[Parent(j)].priority >= s[j].priority)
    && (0 < k ==> forall j :: 0 < j < n && Parent(j) == k ==> s[Parent(k)].priority >= s[j].priority)
  }

  /**
   The shape kept while an entry sinks from slot k: every parent/child edge
   holds except the ones from k to its children, and k's parent already
   outranks k's children.
   */
  predicate OrderedExceptDown<V>(s: seq<Item<V>>, n: nat, k: nat)
    requires k < n <= |s|
  {
    && (forall j :: 0 < j < n && Parent(j) != k ==> s[Parent(j)].priority >= s[j].priority)
    && (0 < k ==> forall j :: 0 < j < n && Parent(j) == k ==> s[Parent(k)].priority >= s[j].priority)
  }

  /** The children of slot i are exactly the slots whose parent is i. */
  lemma ChildrenOf(i: nat, j: nat)
    requires 0 < j
    ensures Parent(j) == i <==> (j == Left(i) || j == Right(i))
  {
  }

  /** A parent always sits strictly before its child. */
  lemma ParentBefore(j: nat)
    requires 0 < j
    ensures Parent(j) < j
    ensures Left(Parent(j)) <= j <= Right(Parent(j))
  {
  }

  /** In a heap the root holds a maximal priority. */
  lemma {:induction false} RootIsMax<V>(s: seq<Item<V>>, n: nat, j: nat)
    requires n <= |s| && Ordered(s, n) && j < n
    ensures s[j].priority <= s[0].priority
    decreases j
  {
    if j > 0 {
      RootIsMax(s, n, Parent(j));
    }
  }

  /** Only the first n slots decide whether a buffer is a heap of n entries. */
  lemma OrderedDependsOnPrefix<V>(s: seq<Item<V>>, t: seq<Item<V>>, n: nat)
    requires n <= |s| && n <= |t| && s[..n] == t[..n]
    ensures Ordered(s, n) <==> Ordered(t, n)
  {
    assert forall j :: 0 <= j < n ==> s[j] == s[..n][j] == t[..n][j] == t[j];
  }

  /** Writing one entry just past a heap gives the shape sift-up starts from. */
  lemma AppendReady<V>(s: seq<Item<V>>, n: nat, x: Item<V>)
    requires n < |s|
    ensures Ordered(s, n) ==> OrderedExceptUp(s[n := x], n + 1, n)
  {
    if Ordered(s, n) {
      var t := s[n := x];
      forall j | 0 < j < n + 1 && j != n
        ensures t[Parent(j)].priority >= t[j].priority
      {
        ParentBefore(j);
      }
      if 0 < n {
        forall j | 0 < j < n + 1 && Parent(j) == n
          ensures false
        {
          ParentBefore(j);
        }
      }
    }
  }

  /** One sift-up swap moves the climbing entry one level up and keeps the shape. */
  lemma SiftUpStep<V>(s: seq<Item<V>>, n: nat, k: nat)
    requires 0 < k < n <= |s|
    requires s[Parent(k)].priority < s[k].priority
    ensures OrderedExceptUp(s, n, k) ==> OrderedExceptUp(Swap(s, k, Parent(k)), n, Parent(k))
  {
    if OrderedExceptUp(s, n, k) {
      var p := Parent(k);
      var t := Swap(s, k, p);
      ParentBefore(k);
      forall j | 0 < j < n && j != p
        ensures t[Parent(j)].priority >= t[j].priority
      {
        if j == k {
        } else if Parent(j) == k {
          assert t[Parent(j)] == s[p] && t[j] == s[j];
        } else if Parent(j) == p {
          assert t[Parent(j)] == s[k] && t[j] == s[j];
        } else {
          ParentBefore(j);
          assert j != p && Parent(j) != p;
        }
      }
      if 0 < p {
        forall j | 0 < j < n && Parent(j) == p
          ensures t[Parent(p)].priority >= t[j].priority
        {
          ParentBefore(p);
          assert t[Parent(p)] == s[Parent(p)];
          if j == k {
            assert t[j] == s[p];
          } else {
            assert t[j] == s[j];
          }
        }
      }
    }
  }

  /** Sift-up stops at the root or below a parent that already outranks the entry. */
  lemma SiftUpDone<V>(s: seq<Item<V>>, n: nat, k: nat)
    requires k < n <= |s|
    requires k == 0 || s[Parent(k)].priority >= s[k].priority
    ensures OrderedExceptUp(s, n, k) ==> Ordered(s, n)
  {
  }

  /** Moving the last of n entries into the root of a heap gives the shape sift-down starts from. */
  lemma RootReplaceReady<V>(s: seq<Item<V>>, n: nat)
    requires 1 < n <= |s|
    ensures Ordered(s, n) ==> OrderedExceptDown(s[0 := s[n - 1]], n - 1, 0)
  {
    if Ordered(s, n) {
      var t := s[0 := s[n - 1]];
      forall j | 0 < j < n - 1 && Parent(j) != 0
        ensures t[Parent(j)].priority >= t[j].priority
      {
      }
    }
  }

  /**
   One sift-down swap with a child c that outranks its siblings and the
   sinking entry moves the sinking entry one level down and keeps the shape.
   */
  lemma SiftDownStep<V>(s: seq<Item<V>>, n: nat, k: nat, c: nat)
    requires k < c < n <= |s| && Parent(c) == k
    requires forall j :: 0 < j < n && Parent(j) == k ==> s[j].priority <= s[c].priority
    requires s[k].priority <= s[c].priority
    ensures OrderedExceptDown(s, n, k) ==> OrderedExceptDown(Swap(s, c, k), n, c)
  {
    if OrderedExceptDown(s, n, k) {
      var t := Swap(s, c, k);
      forall j | 0 < j < n && Parent(j) != c
        ensures t[Parent(j)].priority >= t[j].priority
      {
        ParentBefore(j);
        if j == c {
        } else if Parent(j) == k {
          assert t[Parent(j)] == s[c] && t[j] == s[j];
        } else if j == k {
          assert t[Parent(j)] == s[Parent(k)] && t[j] == s[c];
        } else {
          assert t[Parent(j)] == s[Parent(j)] && t[j] == s[j];
        }
      }
      forall j | 0 < j < n && Parent(j) == c
        ensures t[Parent(c)].priority >= t[j].priority
      {
        ParentBefore(j);
        assert t[Parent(c)] == s[c] && t[j] == s[j];
      }
    }
  }

  /** Sift-down stops at a leaf or above children that the entry strictly outranks. */
  lemma SiftDownDone<V>(s: seq<Item<V>>, n: nat, k: nat)
    requires k < n <= |s|
    requires forall j :: 0 < j < n && Parent(j) == k ==> s[k].priority >= s[j].priority
    ensures OrderedExceptDown(s, n, k) ==> Ordered(s, n)
  {
  }
}
