# Indexed priority queues and a disjoint-set forest, in Dafny

This project models three in-memory data structures from a Python
algorithms library and proves their invariants and operation contracts:

- `PQ` in `lib/pq.py` is an indexed binary min-heap.
  - A list `_heap` of (element, priority) entries is read as a complete binary tree.
  - A dictionary `_index` records the slot of every element, so that
    `change_priority` and `remove` can find any element and repair the heap.
  - Both sift routines use the "hole" technique.
  - There is a second sift-up that binary-searches the ancestor path, using
    closed-form ancestor and tree-level arithmetic.
- `MaxPQ` in `lib/pq.py` stores negated priorities and refuses `peek_min`/`extract_min`.
- The older `PQ` in `pq.py` has the same indexed-heap idea. Its sift-up swaps
  entries instead of moving a hole.
- `DisjointSets` in `lib/disjointsets.py` is union-find with union by rank
  (`_link`) and recursive path compression (`_find_set`).

Layout:

- `heap_index.dfy` (module `HeapIndex`): slot arithmetic (`_left`, `_right`,
  `_parent`, `_ancestor`, `_tree_level`).
- `heap_order.dfy` (module `HeapOrder`) holds the pure specification of the heaps:
  - `Elements`, `Distinct` and `Priorities`. `Priorities(heap)` is the abstract value of a queue.
  - `IndexConsistent` (index consistency) and `HeapOrdered` (heap order).
  - Pure `SiftUp`/`SiftDown`/`UpTarget` functions that describe what the sift loops compute.
  - `AncestorInsertionIndex` (`_get_ancestor_insertion_index`).
  - Lemmas proving that the sifts permute the entries and restore heap order,
    and that the binary search finds the same slot as the linear climb.
- `priority_queue.dfy` (module `PriorityQueue`): class `PQ` of `lib/pq.py`.
  - The fields `heap` and `index` are the `_heap` list and the `_index` dictionary.
  - The methods reassign them the way the source updates them in place.
  - Every sift loop is proved equal to the pure sift function.
  - Every mutator keeps `Valid()`, i.e. heap order plus index consistency,
    and states the new `Contents()` in terms of the old one.
- `max_priority_queue.dfy` (module `MaxPriorityQueue`): class `MaxPQ`, wrapping a `PQ` that holds the negated priorities.
- `legacy_priority_queue.dfy` (module `LegacyPriorityQueue`): class `PQ` of `pq.py`.
- `disjoint_sets.dfy` (module `DisjointSetForest`): class `DisjointSets`.
  - The `_DJSetNode` objects become an arena of node ids: `data`, `parent` and `rank` sequences indexed by node id.
  - `nodes` maps each element to its node.
  - `Root` follows parent links. It terminates because every non-root node
    has a strictly smaller rank than its parent (`RankOrdered`).
  - `Find(x)` is the element stored at the root of `x`'s tree.

Priorities are modelled as unbounded integers, so negation in `MaxPQ` is exact.
Python's `//` and Dafny's `/` agree here because every divisor is positive.

## Model

| member | source | states |
|---|---|---|
| HeapIndex.Pow2 | lib/pq.py:231-234 | `1 << a` is a positive power of two |
| HeapIndex.BitLength | lib/pq.py:236-237 | `bit_length(n)` is 0 only for 0; otherwise `2^(r-1) <= n < 2^r` |
| HeapIndex.TreeLevel | lib/pq.py:236-237 | slot `i` lies on level `r`, the one with `2^r <= i+1 < 2^(r+1)` |
| HeapIndex.Left | lib/pq.py:222-223 | `_left(i)`, `2i+1`; ParentOfChildren ties it to `Parent` |
| HeapIndex.Right | lib/pq.py:225-226 | `_right(i)`, `2i+2`; ParentOfChildren ties it to `Parent` and `Left` |
| HeapIndex.Parent | lib/pq.py:228-229 | `_parent(i)`, `(i-1)//2`; ParentOfChildren shows it inverts `Left`/`Right` and gives -1 at the root |
| HeapIndex.Ancestor | lib/pq.py:231-234 | `_ancestor(i, a)` in closed form; distance 0 is `i` itself; AncestorIsRepeatedParent and AncestorAtTreeLevelIsRoot tie it to `Parent` and `TreeLevel` |
| HeapIndex.ParentOfChildren | lib/pq.py:222-229 | `_parent(_left(i)) == _parent(_right(i)) == i`; the right child follows the left; the slots whose parent is `i` are exactly its two children; a parent precedes its child; `_parent(0) == -1`, as Python's `(0-1)//2` |
| HeapIndex.AncestorStep | lib/pq.py:228-234 | `_ancestor(i, a+1) == _parent(_ancestor(i, a))` |
| HeapIndex.AncestorIsRepeatedParent | lib/pq.py:228-234 | the closed form of `_ancestor(i, a)` equals following `a` parent links (so `_ancestor(i, 0) == i`) |
| HeapIndex.AncestorBounds | lib/pq.py:231-237 | every ancestor up to the tree level is a slot between the root and `i`, and a proper ancestor precedes `i` |
| HeapIndex.AncestorAtTreeLevelIsRoot | lib/pq.py:231-237 | `_ancestor(i, _tree_level(i)) == 0` |
| HeapOrder.PrioritiesAt | lib/pq.py:160-167 | in a queue with distinct elements, the priority of the element at a slot is the one stored there |
| HeapOrder.ConsistentFacts | lib/pq.py:22-23 | index consistency makes the elements distinct, makes the index keys exactly the stored elements, and sends each key to its priority |
| HeapOrder.DistinctCardinality | lib/pq.py:61-64 | with distinct elements, the number of elements equals the number of slots |
| HeapOrder.PrioritiesOfPermutation | lib/pq.py:239-244 | two arrangements of the same distinct entries hold the same priorities |
| HeapOrder.PrioritiesAppend | lib/pq.py:85-91 | appending an entry for a new element adds exactly that element with its priority |
| HeapOrder.PrioritiesUpdate | lib/pq.py:185-193 | overwriting a slot's priority changes that element's priority and no other |
| HeapOrder.RemoveSlot | lib/pq.py:140-142 | `x = heap.pop()` followed by `heap[position] = x` when `position` was not the last slot; RemoveSlotShape and PrioritiesRemoveSlot state its effect |
| HeapOrder.RemoveSlotShape | lib/pq.py:209-213 | removing slot `i` shortens the list by one, puts the old last entry at `i` unless `i` was last, and keeps every other slot |
| HeapOrder.PrioritiesRemoveSlot | lib/pq.py:136-145 | moving the last entry into a removed slot removes exactly that slot's element and keeps every other priority |
| HeapOrder.ConsistentAfterPop | lib/pq.py:209-211 | popping the last slot and deleting its element's index entry keeps the index consistent |
| HeapOrder.RemoveInterior | lib/pq.py:207-218 | removing an interior slot of a valid heap leaves it indexed except at that slot, and ready for the sift-up or sift-down that `remove` chooses |
| HeapOrder.ExtractReady | lib/pq.py:136-145 | moving the last entry to the root leaves a heap that is ready for sift-down at the root, indexed except there, and without the old minimum |
| HeapOrder.ReplaceReady | lib/pq.py:171-193 | after a priority change at a slot, a decrease makes the heap ready for sift-up and an increase makes it ready for sift-down |
| HeapOrder.RootIsMinimum | lib/pq.py:129-132 | in a heap-ordered list the root has a priority no larger than any slot's |
| HeapOrder.RootIsMinimumOfContents | lib/pq.py:129-145 | the root's element is in the queue and has a minimum priority among its elements |
| HeapOrder.SiftUp | lib/pq.py:246-255 | the hole sift-up as a function on the list; it keeps the length |
| HeapOrder.UpTarget | lib/pq.py:246-255 | the slot where sift-up stops lies on or above the starting slot |
| HeapOrder.SiftDown | lib/pq.py:279-293 | the hole sift-down as a function on the list; it keeps the length |
| HeapOrder.SiftUpTowardTarget | lib/pq.py:249-255 | sift-up moves on exactly while the entry has not reached its stopping slot |
| HeapOrder.SiftDownStep | lib/pq.py:282-293 | one iteration of sift-down: the smaller child (the left one on a tie) moves up when it is strictly smaller; otherwise the entry stops |
| HeapOrder.SwapKeepsEntries | pq.py:156-162 | exchanging two slots keeps the multiset of entries and their distinctness |
| HeapOrder.HoleShift | lib/pq.py:249-253 | moving a child into the hole is the same as swapping the moving entry down: same entries, same distinctness |
| HeapOrder.UpStep | lib/pq.py:249-253 | exchanging an entry with a strictly larger parent moves sift-up readiness to the parent |
| HeapOrder.UpStop | lib/pq.py:249-255 | when sift-up stops, the heap is ordered |
| HeapOrder.SiftUpIgnoresHole | pq.py:156-162 | what the swap loop leaves at the current slot does not affect the result of sift-up |
| HeapOrder.SiftUpCorrect | lib/pq.py:246-255 | sift-up from a ready slot permutes the entries, keeps them distinct and restores heap order |
| HeapOrder.SiftUpPlaces | lib/pq.py:254-255 | sift-up writes the moving entry at its stopping slot |
| HeapOrder.DownStep | lib/pq.py:282-291 | exchanging an entry with its smaller, strictly smaller child moves sift-down readiness to that child |
| HeapOrder.DownStop | lib/pq.py:288-293 | when sift-down stops, every edge below the starting level is ordered |
| HeapOrder.SiftDownCorrect | lib/pq.py:279-293 | sift-down from a ready slot permutes the entries, keeps them distinct and orders every edge from the start down |
| HeapOrder.SiftDownPermutes | lib/pq.py:279-293 | sift-down only rearranges the entries |
| HeapOrder.SiftDownOrders | lib/pq.py:279-293 | sift-down from a ready slot orders every edge from the start down |
| HeapOrder.UpReadyAfterAppend | lib/pq.py:85-91 | appending to an ordered heap leaves it ready for sift-up at the new last slot |
| HeapOrder.UpReadyAfterDecrease | lib/pq.py:185-187 | lowering a priority in an ordered heap leaves it ready for sift-up there |
| HeapOrder.DownReadyAfterReplace | lib/pq.py:171-193 | replacing an entry by one no smaller than its parent leaves the heap ready for sift-down there |
| HeapOrder.OrderedPrefix | lib/pq.py:196-218 | dropping the last slot of an ordered heap keeps it ordered |
| HeapOrder.LeavesOrdered | lib/pq.py:239-244 | the slots from `len/2` onward have no children, so `_heapify` may start at `len//2 - 1` |
| HeapOrder.HeapifyStep | lib/pq.py:241-242 | once every slot after `i` roots a heap, slot `i` is ready for sift-down |
| HeapOrder.HeapifyFrom | lib/pq.py:239-244 | the heapify loop as a function on the list; it keeps the length |
| HeapOrder.HeapifyCorrect | lib/pq.py:239-244 | heapify permutes the entries, keeps them distinct and yields an ordered heap |
| HeapOrder.IndexRestored | lib/pq.py:243-244 | re-indexing every slot of a permuted list restores index consistency and keeps the priorities |
| HeapOrder.UpRepaired | lib/pq.py:246-255 | a completed sift-up from a ready slot leaves a valid heap with the same priorities |
| HeapOrder.DownRepaired | lib/pq.py:279-293 | a completed sift-down from a ready slot leaves a valid heap with the same priorities |
| HeapOrder.DownRepairedWithout | lib/pq.py:139-145 | after sift-down in `extract_min`, deleting the minimum's index entry leaves a valid heap |
| HeapOrder.BulkAppendStep | lib/pq.py:104-108 | the bulk branch of `add_all` appends a pair exactly when its element is not already present, so incoming elements are added and present ones keep their priority |
| HeapOrder.AddEachStep | lib/pq.py:109-111 | the one-by-one branch of `add_all` has the same effect per pair |
| HeapOrder.AncestorInsertionIndex | lib/pq.py:269-276 | the binary search over tree levels returns a slot on or above the start |
| HeapOrder.AtLevel | lib/pq.py:231-237 | the ancestor of a slot at a given tree level lies on or above it |
| HeapOrder.AtLevelFacts | lib/pq.py:231-237 | the path slot at level 0 is the root, the one at the slot's own level is the slot, and each level is the parent of the next |
| HeapOrder.ClimbIsUpTarget | lib/pq.py:246-255 | the level where the linear climb stops is the slot where sift-up stops |
| HeapOrder.UpReadyPathOrdered | lib/pq.py:257-267 | a heap ready for sift-up at a slot (the state `add`, `change_priority` and `remove` produce) is ordered along the path above it |
| HeapOrder.PathMonotone | lib/pq.py:269-276 | when heap order holds along the path above a slot, priorities on it do not decrease going down |
| HeapOrder.Threshold | lib/pq.py:272-276 | when heap order holds along the path, the binary search's test at a level holds exactly at and below the stopping level |
| HeapOrder.BinarySearchFinds | lib/pq.py:269-276 | when heap order holds along the path, the binary search between any bounds that bracket the stopping level returns the stopping slot |
| HeapOrder.AncestorInsertionIndexIsUpTarget | lib/pq.py:257-276 | whenever heap order holds along the path from the root to the slot's parent (the rest of the heap may be in any order), `_get_ancestor_insertion_index` finds the same slot as `_percolate_up` |
| HeapOrder.UpTargetIgnoresBelow | lib/pq.py:260-267 | the stopping slot of sift-up from a slot does not depend on slots below it |
| PriorityQueue.PQ.constructor | lib/pq.py:43-58 | the new queue is valid and holds exactly the given pairs, one slot per pair |
| PriorityQueue.PQ.Size | lib/pq.py:61-64 | the size is the number of elements, which equals the number of index entries |
| PriorityQueue.PQ.IsEmpty | lib/pq.py:67-70 | true exactly when the queue holds no element |
| PriorityQueue.PQ.Add | lib/pq.py:73-91 | a present element is refused and nothing changes; otherwise the element gets the given priority, every other priority is unchanged, the size grows by 1 and the queue stays valid |
| PriorityQueue.PQ.AddAll | lib/pq.py:94-111 | every incoming element ends up present; elements already present keep their old priority; new ones get their pair value; the queue stays valid (both branches) |
| PriorityQueue.PQ.Merge | lib/pq.py:115-125 | like `add_all` with `q`'s contents; `q` itself is not modified |
| PriorityQueue.PQ.PeekMin | lib/pq.py:129-132 | returns the root's element, which is in the queue with a minimum priority |
| PriorityQueue.PQ.ExtractMin | lib/pq.py:136-145 | returns the root's element, which has a minimum priority; removes it and keeps every other priority; the size drops by 1; the queue stays valid. Successive extractions are therefore non-decreasing |
| PriorityQueue.PQ.Contains | lib/pq.py:149-156 | true exactly when the element is in the queue |
| PriorityQueue.PQ.GetPriority | lib/pq.py:160-167 | returns the element's current priority |
| PriorityQueue.PQ.ChangePriority | lib/pq.py:171-193 | an absent element changes nothing and yields false; otherwise the element has the new priority, the others are unchanged and the queue stays valid |
| PriorityQueue.PQ.Remove | lib/pq.py:196-218 | an absent element changes nothing and yields false; otherwise exactly that element is gone, the others keep their priorities, the size drops by 1 and the queue stays valid, whether the element is in the last slot or an interior one |
| PriorityQueue.PQ.Heapify | lib/pq.py:239-244 | permutes the entries into an ordered heap and rebuilds a consistent index |
| PriorityQueue.PQ.PercolateUp | lib/pq.py:246-255 | the hole loop computes the sift-up function; every slot it writes is re-indexed, and the moving element is indexed at its final slot |
| PriorityQueue.PQ.PercolateUpBinSearch | lib/pq.py:257-267 | whenever heap order holds along the path above the slot, the binary-search variant computes the same list and index updates as the linear sift-up |
| PriorityQueue.PQ.InsertionSlot | lib/pq.py:257-276 | whenever heap order holds along the path above the slot, the search returns the slot where the linear sift-up stops |
| PriorityQueue.PQ.PercolateDown | lib/pq.py:279-293 | the hole loop computes the sift-down function; every slot it writes is re-indexed, and the moving element is indexed at its final slot |
| PriorityQueue.PQ.PercolateDownNoIndex | lib/pq.py:295-307 | the loop computes the sift-down function and does not touch the index |
| MaxPriorityQueue.Negated | lib/pq.py:335-353 | negates every priority of a batch and keeps its elements and order |
| MaxPriorityQueue.NegatedPriorities | lib/pq.py:335-353 | negating a batch keeps its elements and distinctness, and negates its priority map |
| MaxPriorityQueue.MaxPQ.constructor | lib/pq.py:335-340 | the new queue holds exactly the given pairs with their own (non-negated) priorities |
| MaxPriorityQueue.MaxPQ.Size | lib/pq.py:61-64 | the number of elements |
| MaxPriorityQueue.MaxPQ.IsEmpty | lib/pq.py:67-70 | true exactly when the queue holds no element |
| MaxPriorityQueue.MaxPQ.Add | lib/pq.py:342-343 | a present element is refused and nothing changes; otherwise it gets the given priority and the others are unchanged |
| MaxPriorityQueue.MaxPQ.AddAll | lib/pq.py:345-353 | incoming elements are added with their values; elements already present keep theirs |
| MaxPriorityQueue.MaxPQ.Merge | lib/pq.py:355-363 | like `add_all` with the other max-queue's contents; the other queue is not modified |
| MaxPriorityQueue.MaxPQ.PeekMin | lib/pq.py:365-368 | always fails with `NotImplementedError` and the source's message |
| MaxPriorityQueue.MaxPQ.ExtractMin | lib/pq.py:370-373 | always fails with `NotImplementedError` and the source's message |
| MaxPriorityQueue.MaxPQ.PeekMax | lib/pq.py:375-378 | returns an element of maximum priority |
| MaxPriorityQueue.MaxPQ.ExtractMax | lib/pq.py:380-383 | returns and removes an element of maximum priority; every other priority is kept, so successive extractions are non-increasing |
| MaxPriorityQueue.MaxPQ.Contains | lib/pq.py:149-156 | true exactly when the element is in the queue |
| MaxPriorityQueue.MaxPQ.GetPriority | lib/pq.py:385-386 | returns the value last given to the element by `add`, `change_priority` or the constructor |
| MaxPriorityQueue.MaxPQ.ChangePriority | lib/pq.py:388-389 | an absent element changes nothing; otherwise the element has the new priority and the others are unchanged |
| MaxPriorityQueue.MaxPQ.Remove | lib/pq.py:196-218 | an absent element changes nothing; otherwise exactly that element is gone and the others keep their priorities |
| LegacyPriorityQueue.PQ.constructor | pq.py:33-37 | a new queue is empty and valid |
| LegacyPriorityQueue.PQ.Size | pq.py:40-43 | the size is the number of elements and of index entries |
| LegacyPriorityQueue.PQ.IsEmpty | pq.py:46-49 | true exactly when the size is 0 |
| LegacyPriorityQueue.PQ.Add | pq.py:53-71 | a present element is refused and nothing changes; otherwise the element gets the given priority, the size grows by 1 and the queue stays valid |
| LegacyPriorityQueue.PQ.PeekMin | pq.py:75-78 | returns the root's element, which is in the queue with a minimum priority |
| LegacyPriorityQueue.PQ.ExtractMin | pq.py:82-91 | returns the root's element, which has a minimum priority, removes it from the heap and the index, keeps every other priority, and shrinks the size by 1 |
| LegacyPriorityQueue.PQ.Contains | pq.py:95-102 | true exactly when the element is a key of the index |
| LegacyPriorityQueue.PQ.GetPriorityValue | pq.py:106-113 | returns the element's current priority |
| LegacyPriorityQueue.PQ.ChangePriorityValue | pq.py:117-139 | an absent element changes nothing and yields false; otherwise the element has the new priority, the others are unchanged and the queue stays valid |
| LegacyPriorityQueue.PQ.PercolateUp | pq.py:153-162 | the swap loop computes the sift-up function; the moved element and every parent it displaced are indexed at their new slots |
| LegacyPriorityQueue.PQ.PercolateDown | pq.py:164-178 | the hole loop computes the sift-down function and re-indexes every slot it writes |
| DisjointSetForest.MaxRank | lib/disjointsets.py:122-126 | an upper bound on every rank, which bounds the recursion of `_find_set` |
| DisjointSetForest.Root | lib/disjointsets.py:122-126 | following parent links from a node reaches a node that is its own parent |
| DisjointSetForest.PathFacts | lib/disjointsets.py:122-126 | the root is on the path; every node on the path has the same root; a non-root node has a smaller rank than its root |
| DisjointSetForest.RedirectOrdered | lib/disjointsets.py:124-125 | pointing a node straight at its root keeps every non-root's rank below its parent's |
| DisjointSetForest.RedirectKeepsRoots | lib/disjointsets.py:124-125 | pointing a node straight at its root changes no node's root |
| DisjointSetForest.AttachRoots | lib/disjointsets.py:131-134 | making root `a` a child of root `b` moves exactly the nodes rooted at `a` under `b` |
| DisjointSetForest.LinkRoots | lib/disjointsets.py:129-136 | after linking two roots, nodes under either root are under the root with the larger rank (`ny` on a tie); all other nodes keep their root |
| DisjointSetForest.AppendKeepsRoots | lib/disjointsets.py:59-63 | adding a fresh singleton node changes no existing node's root |
| DisjointSetForest.DisjointSets.constructor | lib/disjointsets.py:32-48 | with no size, the forest is empty and valid |
| DisjointSetForest.DisjointSets.MakeSet | lib/disjointsets.py:51-63 | the element is added as its own representative; every other element keeps its representative |
| DisjointSetForest.DisjointSets.FindSetNode | lib/disjointsets.py:122-126 | returns the node's root; every node on its former path now points straight at the root; other parents, all ranks and all roots are unchanged |
| DisjointSetForest.DisjointSets.Link | lib/disjointsets.py:129-136 | the root with strictly larger rank becomes the parent; otherwise `nx` goes under `ny`, whose rank grows by 1 on a tie; the rank order is kept |
| DisjointSetForest.DisjointSets.Union | lib/disjointsets.py:66-78 | afterwards `x` and `y` share a representative, which is one of their old ones; every element of either old set has it; every other element keeps its old representative, so other sets stay apart; ranks never decrease |
| DisjointSetForest.DisjointSets.FindSet | lib/disjointsets.py:81-97 | returns `x`'s representative, which is its own representative; no element's representative changes, so repeated calls agree; ranks are unchanged |
| DisjointSetForest.DisjointSets.InForest | lib/disjointsets.py:101-108 | true exactly when the element is in the forest |
| DisjointSetForest.DisjointSets.InSet | lib/disjointsets.py:111-119 | true exactly when `x` and `s` have the same representative; no representative changes |
| DisjointSetForest.FromSize | lib/disjointsets.py:32-48 | `DisjointSets(n)` holds exactly the integers `0..n-1`, each its own representative |

## Left out

- Exceptions are preconditions, as follows.
  - `IndexError` from `peek_min`/`extract_min`/`peekMin`/`extractMin`/`peek_max`/`extract_max` on an empty queue is a precondition of those methods.
  - `KeyError` from `get_priority`/`getPriorityValue` on an absent element is one too.
  - `KeyError` from `union`/`find_set`/`in_set` on an unknown element is one too.
- PriorityQueue.PQ.PeekMin: requires a non-empty queue instead of modelling the `IndexError`.
- PriorityQueue.PQ.ExtractMin: requires a non-empty queue instead of modelling the `IndexError`.
- PriorityQueue.PQ.GetPriority: requires the element to be present instead of modelling the `KeyError`.
- PriorityQueue.PQ.constructor: requires the batch's elements to be distinct. The source only checks a batch against the index, so a repeated element inside one batch would leave heap and index out of step.
- PriorityQueue.PQ.AddAll: requires the batch's elements to be distinct, for the same reason.
- MaxPriorityQueue.MaxPQ.constructor: requires distinct batch elements, for the same reason.
- MaxPriorityQueue.MaxPQ.AddAll: requires distinct batch elements, for the same reason.
- MaxPriorityQueue.MaxPQ.Merge: takes only a `MaxPQ`. The source copies the other queue's stored values unchanged, which is only right when that queue is also a `MaxPQ`.
- MaxPriorityQueue.MaxPQ: the model wraps an inner `PQ` holding negated priorities instead of subclassing it. The inherited `size`, `is_empty`, `contains` and `remove` are thin forwarding methods.
- DisjointSetForest.DisjointSets.MakeSet: requires the element to be absent. The source would silently replace that element's node.
- DisjointSetForest.DisjointSets.Union: requires both elements to be in the forest instead of modelling the `KeyError`.
- DisjointSetForest.DisjointSets.FindSet: requires the element to be in the forest instead of modelling the `KeyError`.
- DisjointSetForest.DisjointSets.Link: requires both arguments to be roots, which is how `union` calls it. The source never calls it otherwise.
- DisjointSetForest.FromSize: the sized constructor `DisjointSets(n)` is a separate method. The class is generic over the element type, and only the sized form fixes it to integers.
- `_DJSetNode` objects and their identity are node ids in an arena. Node identity comparisons become id comparisons. The objects themselves (lib/disjointsets.py:142-143) are not modelled.
- Hashing, and the warning about mutating an element's hash, are not modelled: elements are any type with equality, and dictionaries are maps.
- Tie-breaking among equal priorities is not specified. The contracts allow any element of minimum (or maximum) priority, except that the min-queues' `PeekMin`/`ExtractMin` (both `PQ` classes) name the root slot.
- The complexity claims in the docstrings are not modelled.
- Priorities are integers, by modelling choice. The source only compares priorities with `<` and `<=` and would accept any ordered values, floats included. Integers make the negation in `MaxPQ` exact.
- The test suites (tests/pqtests.py, tests/disjointsettests.py) are not modelled. They use random shuffles and only served as evidence for the stated properties.
- `union(x, y)` on two elements of the same set takes the tie branch of `_link` with `nx == ny` and increments that root's rank. The model does the same, so `Union`'s rank clause only says that ranks never decrease.
