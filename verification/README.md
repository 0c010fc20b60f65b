# p_queue: an array-backed max-heap priority queue

This project models `p_queue` from `DPQueue.cpp` and proves properties of the model. `p_queue` stores (data, priority) entries in a dynamic array laid out as a binary max-heap:
- `used` counts the live entries, and they occupy `heap[0 .. used)`.
- `capacity` is the length of the array.
- `push` appends an entry and sifts it up.
- `pop` moves the last entry into the root and sifts it down.
- `front` reads the root.

The model has four modules plus a usage module:

- `Heap` (heap.dfy) covers the array layout:
  - the entry type `Item`;
  - parent and child index arithmetic;
  - the heap property `Ordered` on a prefix of a buffer;
  - the two "almost a heap" shapes that sift-up and sift-down keep while they run, with one lemma per loop step.
- `PriorityQueue` (queue.dfy) is the queue as a value. `Queue(heap, used)` holds the whole buffer, including the stale slots past `used`. Every member function of `p_queue` is a pure function over it. Each contract says what the operation does to:
  - the multiset of live entries;
  - the heap property;
  - the fill count;
  - the capacity.
- `DPQueue` (dpqueue.dfy) holds the in-place methods of p_queue over `array<Item<V>>`, with the corrected larger-child selection.
  - Push (when there is room), Pop, the sift loops, SwapWithParent and the query functions are proved equal to the value model. Each sift loop keeps "the model's sift from the current slot ends where the model's sift from the start slot ends" as its invariant.
  - Resize, Copy, Assign, the constructor and Push on a full array are specified directly on the fields (capacity, count and live slots), because the slots they allocate hold unspecified entries.
- `AsWritten` (as_written.dfy) holds `big_child_index` and `pop` as written, root special case included, in two builds:
  - With assertions enabled (`PopAsWritten`), pop stops at its own assertion on an empty queue. On a three-entry heap whose slot 2 outranks slot 1, it stops at `swap_with_parent`'s assertion `i < used` (see Findings).
  - With assertions disabled (`PopUnchecked`), that same call swaps two copies of one entry and the loop ends, so pop ends exactly where the corrected pop ends.
- `Scenarios` (scenarios.dfy) holds short push/pop sequences and their outcomes.

## Model

The class invariant at DPQueue.cpp:4-19 is defined, not proved, so its definitions carry no contract and have no row. They are:
- `Heap.Ordered`, the heap property on a prefix;
- `Queue.WellFormed`, `Queue.Valid` and `Queue.Entries` in PriorityQueue;
- `PQueue.WellFormed`, `PQueue.Valid` and `PQueue.Model` in DPQueue.

Every row below states something in terms of them.

| member | source | states |
|---|---|---|
| Heap.Swap | DPQueue.cpp:314-328 | exactly the two named slots exchange their entries; every other slot keeps its entry |
| Heap.ChildrenOf | DPQueue.cpp:284-285 | slot j has parent i exactly when j is 2i+1 or 2i+2 |
| Heap.ParentBefore | DPQueue.cpp:251-259 | a parent slot lies strictly before its child, and the child is one of the parent's two child slots |
| Heap.RootIsMax | DPQueue.cpp:4-13 | in a heap, no live entry has a higher priority than the root |
| Heap.OrderedDependsOnPrefix | DPQueue.cpp:226-236 | whether a buffer is a heap of n entries depends only on its first n slots, so copying the live slots carries the heap property over |
| Heap.AppendReady | DPQueue.cpp:147-151 | writing an entry just past a heap gives the shape sift-up starts from |
| Heap.SiftUpStep | DPQueue.cpp:154-158 | one swap of the climbing entry with a lower-priority parent keeps the sift-up shape, one level higher |
| Heap.SiftUpDone | DPQueue.cpp:154 | when sift-up stops (at the root, or below a parent whose priority is at least as high), the buffer is a heap |
| Heap.RootReplaceReady | DPQueue.cpp:179-183 | moving the last entry into the root of a heap and dropping one slot gives the shape sift-down starts from |
| Heap.SiftDownStep | DPQueue.cpp:188-194 | swapping the sinking entry with its larger child keeps the sift-down shape, one level lower |
| Heap.SiftDownDone | DPQueue.cpp:188 | when sift-down stops (at a leaf, or above children of strictly lower priority), the buffer is a heap |
| PriorityQueue.Grow | DPQueue.cpp:144-145 | the grown capacity is floor(1.5 c) + 1, which is strictly larger than c |
| PriorityQueue.Create | DPQueue.cpp:89-98 | a new queue is an empty heap; a positive request is the capacity, and a zero request gets DefaultCapacity |
| PriorityQueue.Size | DPQueue.cpp:200-203 | the size is the number of stored entries, counted with multiplicity |
| PriorityQueue.Empty | DPQueue.cpp:205-208 | the queue is empty exactly when it stores no entries |
| PriorityQueue.Front | DPQueue.cpp:210-214 | front is the payload of a stored entry, and in a heap every stored entry's priority is at most that entry's |
| PriorityQueue.EntriesBelowRoot | DPQueue.cpp:4-13 | the root is a stored entry, and in a heap every stored entry ranks no higher than it |
| PriorityQueue.IsLeaf | DPQueue.cpp:242-249 | slot i is a leaf exactly when no live slot has i as its parent |
| PriorityQueue.ParentIndex | DPQueue.cpp:251-259 | the parent index lies before i, and i is its left or right child |
| PriorityQueue.ParentPriority | DPQueue.cpp:261-270 | the result is the parent's priority, and in a heap it is at least slot i's |
| PriorityQueue.BigChildIndex | DPQueue.cpp:272-299 | returns a live child of i whose priority is at least every child's, choosing the right child only when it is strictly larger |
| PriorityQueue.BigChildPriority | DPQueue.cpp:301-312 | returns the highest priority among i's live children, and some live child has it |
| PriorityQueue.SwapWithParent | DPQueue.cpp:314-328 | exchanges slot i with its parent and leaves all other slots, the count and the stored entries unchanged |
| PriorityQueue.SwapKeepsEntries | DPQueue.cpp:325-327 | exchanging two live slots keeps the multiset of live entries |
| PriorityQueue.SwapWithParentTwice | DPQueue.cpp:314-328 | swapping with the parent twice restores the queue |
| PriorityQueue.SiftUp | DPQueue.cpp:154-158 | sift-up keeps the count, the capacity, the stored entries and the unused slots, and turns the sift-up shape into a heap |
| PriorityQueue.SiftUpUnfold | DPQueue.cpp:154-157 | one round of the sift-up loop: swap with the parent, then continue from the parent's slot |
| PriorityQueue.SiftUpExit | DPQueue.cpp:154 | the sift-up loop leaves the queue alone at the root or below a parent that is not outranked |
| PriorityQueue.SiftDown | DPQueue.cpp:185-194 | sift-down keeps the count, the capacity, the stored entries and the unused slots, and turns the sift-down shape into a heap |
| PriorityQueue.SiftDownUnfold | DPQueue.cpp:188-194 | one round of the sift-down loop: swap with the larger child, then continue from the child's slot |
| PriorityQueue.SiftDownExit | DPQueue.cpp:188 | the sift-down loop leaves the queue alone at a leaf or above children of strictly lower priority |
| PriorityQueue.Resize | DPQueue.cpp:217-240 | the capacity becomes max(new capacity, used); the count, the live slots and the heap property are kept |
| PriorityQueue.Copy | DPQueue.cpp:100-109 | a copy has the same capacity, count, live slots and front, and is a heap when the source is |
| PriorityQueue.CopyIsResize | DPQueue.cpp:100-109 | copying a queue is reallocating it to its own capacity |
| PriorityQueue.Assign | DPQueue.cpp:118-139 | self-assignment changes nothing; otherwise the target gets rhs's capacity, count and live slots |
| PriorityQueue.Insert | DPQueue.cpp:147-158 | with a free slot, the count grows by one, the entry joins the stored entries, the capacity is kept and the heap property is kept |
| PriorityQueue.Push | DPQueue.cpp:141-159 | the count grows by one, the stored entries gain exactly the new entry, the heap property is kept, and a full buffer grows to floor(1.5 c) + 1 |
| PriorityQueue.MoveLastToRootEntries | DPQueue.cpp:179-183 | overwriting the root with the last live entry and dropping one slot removes exactly the root entry |
| PriorityQueue.MoveLastToRoot | DPQueue.cpp:179-183 | the count drops by one, the root entry is gone, and a heap becomes the sift-down shape at the root |
| PriorityQueue.Pop | DPQueue.cpp:161-196 | an empty queue is unchanged; otherwise the count drops by one, exactly the front entry is removed, and the heap property is kept |
| PriorityQueue.PopRootsNonIncreasing | DPQueue.cpp:161-196 | after a pop, the new front ranks no higher than the removed one, so successive pops come out in non-increasing priority |
| PriorityQueue.FrontOfUniqueMax | DPQueue.cpp:210-214 | if one stored entry outranks all others, it is at the root and front returns its payload |
| PriorityQueue.PushHigherThenPop | DPQueue.cpp:141-196 | pushing an entry that outranks everything makes it the front, and popping it gives back exactly the previous entries |
| PriorityQueue.SiftUpKeepsRoot | DPQueue.cpp:154-158 | an entry climbing from below the root does not displace a root it does not outrank |
| PriorityQueue.PushLowerKeepsFront | DPQueue.cpp:141-159 | pushing an entry that does not outrank the front leaves the root entry in place |
| AsWritten.BigChildIndexAsWritten | DPQueue.cpp:272-299 | the as-written choice is a child slot; it agrees with the corrected one whenever it is live, and it is not live exactly at the root of a two-entry queue whose stale third slot outranks slot 1 |
| AsWritten.SiftDownAsWritten | DPQueue.cpp:185-194 | with assertions enabled, the as-written sift-down can break only at the root of a two-entry queue, at slot 2; otherwise it ends where the corrected sift-down ends |
| AsWritten.PopAsWritten | DPQueue.cpp:161-196 | with assertions enabled, pop as written stops on an empty queue, and it stops at swap_with_parent's assertion i < used exactly when three entries are stored and slot 2 outranks slot 1; in every other case it equals the corrected pop |
| AsWritten.SiftDownUnchecked | DPQueue.cpp:185-194 | with assertions disabled, the as-written sift-down ends where the corrected sift-down ends whenever the root case cannot pick a stale slot |
| AsWritten.StaleSwapIsHarmless | DPQueue.cpp:287-293 | with assertions disabled, when the root case picks the stale slot 2, the swap exchanges two copies of one entry and pop still ends where the corrected pop ends |
| AsWritten.PopUnchecked | DPQueue.cpp:161-196 | with assertions disabled, pop as written equals the corrected pop on every queue |
| AsWritten.PopAsWrittenBreaksOnThree | DPQueue.cpp:287-293 | on the valid heap with priorities 5, 1, 3, pop as written calls swap_with_parent(2) with two live entries, while the corrected pop leaves a heap with the priority-3 entry in front |
| Scenarios.FrontOfThree | DPQueue.cpp:161-214 | of three entries with distinct priorities, the highest is in front, and pop removes exactly that one |
| Scenarios.FrontOfTwo | DPQueue.cpp:210-214 | of two entries with distinct priorities, the higher one is in front |
| Scenarios.ThreePushesKeepAll | DPQueue.cpp:89-159 | three pushes into a new queue of any starting capacity give a heap holding exactly the three entries |
| Scenarios.ThreePushesThenPop | DPQueue.cpp:141-214 | after pushing priorities pa, pb, pc with pc < pa < pb, the front is the pb entry, and after one pop it is the pa entry |
| DPQueue.PQueue.constructor | DPQueue.cpp:89-98 | a new object is an empty heap in a fresh array; a positive request is the capacity, and a zero request gets DefaultCapacity |
| DPQueue.PQueue.Copy | DPQueue.cpp:100-109 | the copy has the source's capacity, count and live slots in a fresh array, and is a heap |
| DPQueue.PQueue.Size | DPQueue.cpp:200-203 | agrees with the value model's size, the number of stored entries |
| DPQueue.PQueue.Empty | DPQueue.cpp:205-208 | agrees with the value model's emptiness test |
| DPQueue.PQueue.Front | DPQueue.cpp:210-214 | agrees with the value model's front, the payload of a highest-priority entry |
| DPQueue.PQueue.IsLeaf | DPQueue.cpp:242-249 | the index test 2i + 1 >= used agrees with the model's "no live child" |
| DPQueue.PQueue.ParentIndex | DPQueue.cpp:251-259 | (i - 1) / 2 agrees with the model's parent slot |
| DPQueue.PQueue.ParentPriority | DPQueue.cpp:261-270 | agrees with the model's parent priority |
| DPQueue.PQueue.BigChildIndex | DPQueue.cpp:272-299 | the corrected in-place selection agrees with the model's larger live child |
| DPQueue.PQueue.BigChildPriority | DPQueue.cpp:301-312 | agrees with the model's highest child priority |
| DPQueue.PQueue.Push | DPQueue.cpp:141-159 | the in-place push keeps the class invariant, adds exactly the new entry, equals the model's insert when there is room, and reallocates to floor(1.5 c) + 1 when full |
| DPQueue.PQueue.SiftUpFrom | DPQueue.cpp:154-158 | the in-place sift-up loop ends in the same state as the model's sift-up |
| DPQueue.PQueue.Pop | DPQueue.cpp:161-196 | the in-place pop ends in the same state as the model's pop, keeps the array, and leaves an empty queue untouched |
| DPQueue.PQueue.SiftDownFrom | DPQueue.cpp:185-194 | the in-place sift-down loop ends in the same state as the model's sift-down |
| DPQueue.PQueue.Resize | DPQueue.cpp:217-240 | reallocation to max(new capacity, used) slots keeps the count, the live slots and the class invariant |
| DPQueue.PQueue.Assign | DPQueue.cpp:118-139 | self-assignment leaves the array untouched; otherwise a fresh array gets rhs's capacity, count and live slots |
| DPQueue.PQueue.SwapWithParent | DPQueue.cpp:314-328 | the in-place swap ends in the same state as the model's swap |

## Left out

- print_tree and print_array (DPQueue.cpp:34-85): they only write to standard output.
- The error-stream message of pop on an empty queue (DPQueue.cpp:168). PriorityQueue.Pop and the class follow the build with assertions disabled, where pop returns without changing anything. The assertion at DPQueue.cpp:163 is modelled only in AsWritten.PopAsWritten.
- Memory management: `new[]`, `delete[]` and the destructor (DPQueue.cpp:111-115). Allocation is a fresh Dafny array, and allocation failure is not modelled.
- The floating-point growth `size_t(1.5 * capacity) + 1` is modelled as the integer `c + c/2 + 1`. The two agree as long as `1.5 * c` is exact in a double.
- `size_type` overflow: priorities, counts and capacities are unbounded naturals.
- DEFAULT_CAPACITY is declared in DPQueue.h, which is not part of this model. The model uses 1, and the contracts rely only on it being positive. `capacity <= 0` on the unsigned `size_type` means `capacity == 0`.
- Unspecified slot contents: slots that `new[]` leaves uninitialised, and that a copy does not write, hold a caller-supplied `fill` entry in the value model. In the class they hold whatever Dafny's array allocation gives.
- No order among equal priorities is promised, and none is modelled. The `<=` in sift-down (DPQueue.cpp:188) makes it arbitrary.
- PriorityQueue.Front: requires a non-empty queue, as the source asserts (DPQueue.cpp:212). The value an empty queue would return is unspecified.
- AsWritten.BigChildIndexAsWritten: also requires a third allocated slot when called at the root of a two-entry queue. Reading past the array is undefined behaviour in the source, and every call from pop has that slot.
- The class and the value model use the corrected larger-child selection. The as-written selection is kept only in AsWritten (see Findings).

The larger-child selection has two readings in the source:
- The postcondition of `big_child_index` compares against "the other child, if there is one" (DPQueue.cpp:277-278).
- The non-root branch checks that the right child is live (DPQueue.cpp:295).
- The root branch (DPQueue.cpp:287-293) does not check it.

AsWritten models the root branch as the code has it. PriorityQueue and the class use the selection that the postcondition and the non-root branch describe.

## Findings

| source | as written | input that shows it | evidently intended | confidence | as-written member | corrected member |
|---|---|---|---|---|---|---|
| DPQueue.cpp:287-293 | big_child_index(0) compares heap[1] and heap[2] without checking that slot 2 is live | push (a, 5), (b, 1), (c, 3), then pop. The root becomes (c, 3) with used == 2. Stale heap[2] (c, 3) beats heap[1] (b, 1), so big_child_index(0) returns 2. With assertions enabled, swap_with_parent(2) then stops the program at its assertion i < used (DPQueue.cpp:319). With assertions disabled, heap[0] and heap[2] hold the same entry, so the swap changes nothing and the result equals the corrected pop (AsWritten.PopUnchecked) | consider the right child only when 2i + 2 < used, as the non-root branch at DPQueue.cpp:295 does | not executed | AsWritten.PopAsWritten | PriorityQueue.BigChildIndex |
