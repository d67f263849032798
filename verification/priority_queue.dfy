/**
 * The indexed binary min-heap `PQ` of lib/pq.py and its `MaxPQ` variant.
 *
 * `heap` is the `_heap` list of (element, priority) entries and `index` the
 * `_index` dictionary from element to slot; the methods reassign them the way
 * the source updates them in place.  The abstract value of a queue is
 * `Contents()`, the priority of every element it holds.  Every mutator keeps
 * `Valid()`: heap order and index consistency.
 */
module PriorityQueue {
  import opened HeapIndex
  import opened HeapOrder

  /** The exception a `MaxPQ` raises from the min-end operations it does not support. */
  datatype Unsupported = NotImplementedError(message: string)

  class PQ<T(==)> {
    var heap: seq<(T, int)>
    var index: map<T, nat>

    /** Heap order and index consistency (which also makes the elements distinct). */
    ghost predicate Valid()
      reads this
    {
      IndexConsistent(heap, index) && HeapOrdered(heap)
    }

    /** The priority of every element in the queue. */
    ghost function Contents(): map<T, int>
      reads this
    {
      Priorities(heap)
    }

    /** `__init__`: the queue holds exactly the given pairs. */
    constructor (pairs: seq<(T, int)>)
      requires Distinct(pairs)
      ensures Valid()
      ensures Contents() == Priorities(pairs)
      ensures |heap| == |pairs|
    {
      heap := [];
      index := map[];
      new;
      if |pairs| > 0 {
        var i := 0;
        while i < |pairs|
          invariant 0 <= i <= |pairs|
          invariant heap == pairs[..i] && index == map[]
        {
          heap := heap + [pairs[i]];
          i := i + 1;
        }
        assert heap == pairs;
        Heapify();
        PrioritiesOfPermutation(heap, pairs);
      }
    }

    /** `size`: the number of elements, which is also the number of index entries. */
    method Size() returns (n: nat)
      requires Valid()
      ensures n == |Contents()| == |index|
    {
      ConsistentFacts(heap, index);
      DistinctCardinality(heap);
      n := |heap|;
    }

    /** `is_empty`. */
    method IsEmpty() returns (empty: bool)
      requires Valid()
      ensures empty <==> Contents() == map[]
    {
      ConsistentFacts(heap, index);
      DistinctCardinality(heap);
      empty := |heap| == 0;
    }

    /** `add`: adds an absent element; a present one leaves the queue untouched. */
    method Add(element: T, value: int) returns (added: bool)
      requires Valid()
      modifies this
      ensures Valid()
      ensures added == (element !in old(Contents()))
      ensures added ==> Contents() == old(Contents())[element := value] && |heap| == old(|heap|) + 1
      ensures !added ==> heap == old(heap) && index == old(index)
    {
      ConsistentFacts(heap, index);
      if element in index {
        return false;
      }
      var x := (element, value);
      var position := |heap|;
      ghost var h0 := heap;
      heap := heap + [x];
      ghost var pre := heap;
      UpReadyAfterAppend(h0, x);
      PrioritiesAppend(h0, x);
      PercolateUp(position);
      UpRepaired(pre, position, heap, index);
      return true;
    }

    /**
     * `add_all`: adds the pairs whose element is absent.  A batch at least as
     * long as the heap is appended and heapified; a shorter one is added pair by pair.
     */
    method AddAll(pairs: seq<(T, int)>)
      requires Valid() && Distinct(pairs)
      modifies this
      ensures Valid()
      ensures Contents() == Priorities(pairs) + old(Contents())
    {
      if |pairs| >= |heap| {
        ghost var h0 := heap;
        assert index.Keys == Elements(h0) && Distinct(h0) by {
          ConsistentFacts(h0, index);
        }
        var i := 0;
        while i < |pairs|
          invariant 0 <= i <= |pairs|
          invariant index == old(index) && index.Keys == Elements(h0) && Distinct(heap)
          invariant Priorities(heap) == Priorities(pairs[..i]) + Priorities(h0)
        {
          BulkAppendStep(heap, h0, pairs, i);
          if pairs[i].0 !in index {
            heap := heap + [pairs[i]];
          }
          i := i + 1;
        }
        assert pairs[..i] == pairs;
        ghost var pre := heap;
        assert index.Keys <= Elements(heap) by {
          assert Priorities(h0).Keys == Elements(h0) && Priorities(heap).Keys == Elements(heap);
        }
        Heapify();
        assert Priorities(heap) == Priorities(pre) by {
          ConsistentFacts(heap, index);
          PrioritiesOfPermutation(heap, pre);
        }
      } else {
        var i := 0;
        assert pairs[..0] == [];
        while i < |pairs|
          invariant 0 <= i <= |pairs|
          invariant Valid()
          invariant Contents() == Priorities(pairs[..i]) + old(Contents())
        {
          AddEachStep(Contents(), old(Contents()), pairs, i);
          var _ := Add(pairs[i].0, pairs[i].1);
          i := i + 1;
        }
        assert pairs[..i] == pairs;
      }
    }

    /** `merge`: adds the pairs of `q` whose element is absent here; `q` itself is not changed. */
    method Merge(q: PQ<T>)
      requires Valid() && q.Valid()
      modifies this
      ensures Valid()
      ensures Contents() == old(q.Contents()) + old(Contents())
      ensures q != this ==> q.heap == old(q.heap) && q.index == old(q.index)
    {
      ConsistentFacts(q.heap, q.index);
      AddAll(q.heap);
    }

    /** `peek_min`: an element of minimum priority, the one at the root. */
    method PeekMin() returns (element: T)
      requires Valid() && Contents() != map[]
      ensures element in Contents()
      ensures forall e :: e in Contents() ==> Contents()[element] <= Contents()[e]
      ensures element == heap[0].0
    {
      ConsistentFacts(heap, index);
      element := heap[0].0;
      RootIsMinimumOfContents(heap);
    }

    /** `extract_min`: removes and returns the element `peek_min` returns. */
    method ExtractMin() returns (minElement: T)
      requires Valid() && Contents() != map[]
      modifies this
      ensures Valid()
      ensures minElement == old(heap)[0].0
      ensures minElement in old(Contents())
      ensures forall e :: e in old(Contents()) ==> old(Contents())[minElement] <= old(Contents())[e]
      ensures Contents() == old(Contents()) - {minElement}
      ensures |heap| == old(|heap|) - 1
    {
      ghost var h0, index0 := heap, index;
      assert |h0| > 0 && Distinct(h0) by {
        ConsistentFacts(h0, index0);
      }
      minElement := heap[0].0;
      assert minElement in Priorities(h0) && forall e :: e in Priorities(h0) ==> Priorities(h0)[minElement] <= Priorities(h0)[e] by {
        RootIsMinimumOfContents(h0);
      }
      var oldLast := heap[|heap| - 1];
      heap := heap[..|heap| - 1];
      if |heap| > 0 {
        heap := heap[0 := oldLast];
        ghost var pre := heap;
        assert pre == RemoveSlot(h0, 0);
        ExtractReady(h0, index0);
        PercolateDown(0);
        DownRepairedWithout(pre, 0, heap, index, minElement);
        index := index - {minElement};
      } else {
        index := index - {minElement};
        assert Valid() && Contents() == Priorities(h0) - {minElement} by {
          ConsistentAfterPop(h0, index0);
          PrioritiesRemoveSlot(h0, 0);
        }
      }
    }

    /** `contains`. */
    method Contains(element: T) returns (present: bool)
      requires Valid()
      ensures present <==> element in Contents()
    {
      ConsistentFacts(heap, index);
      present := element in index;
    }

    /** `get_priority` (an absent element raises `KeyError` in the source). */
    method GetPriority(element: T) returns (value: int)
      requires Valid() && element in Contents()
      ensures value == Contents()[element]
    {
      ConsistentFacts(heap, index);
      value := heap[index[element]].1;
    }

    /** `change_priority`: gives a present element a new priority; an absent one changes nothing. */
    method ChangePriority(element: T, value: int) returns (present: bool)
      requires Valid()
      modifies this
      ensures Valid()
      ensures present == (element in old(Contents()))
      ensures present ==> Contents() == old(Contents())[element := value]
      ensures !present ==> heap == old(heap) && index == old(index)
      ensures |heap| == old(|heap|)
    {
      present := Contains(element);
      if !present {
        return;
      }
      var position := index[element];
      ghost var h0 := heap;
      var x := (element, value);
      assert h0[position].0 == element;
      ReplaceReady(h0, index, position, value);
      if heap[position].1 > value {
        heap := heap[position := x];
        ghost var pre := heap;
        PercolateUp(position);
        UpRepaired(pre, position, heap, index);
      } else if heap[position].1 < value {
        heap := heap[position := x];
        ghost var pre := heap;
        PercolateDown(position);
        DownRepaired(pre, position, heap, index);
      } else {
        assert h0[position := x] == h0;
      }
    }

    /** `remove`: removes a present element; an absent one changes nothing. */
    method Remove(element: T) returns (present: bool)
      requires Valid()
      modifies this
      ensures Valid()
      ensures present == (element in old(Contents()))
      ensures present ==> Contents() == old(Contents()) - {element} && |heap| == old(|heap|) - 1
      ensures !present ==> heap == old(heap) && index == old(index)
    {
      present := Contains(element);
      if !present {
        return;
      }
      var position := index[element];
      ghost var h0, index0 := heap, index;
      assert h0[position].0 == element && Priorities(RemoveSlot(h0, position)) == Priorities(h0) - {element} by {
        ConsistentFacts(h0, index0);
        PrioritiesRemoveSlot(h0, position);
      }
      index := index - {element};
      if |heap| == 1 || position == |heap| - 1 {
        heap := heap[..|heap| - 1];
        assert Valid() by {
          ConsistentAfterPop(h0, index0);
          OrderedPrefix(h0, |h0| - 1);
        }
      } else {
        RemoveInterior(h0, index0, position);
        var last := heap[|heap| - 1];
        heap := heap[..|heap| - 1];
        heap := heap[position := last];
        ghost var pre := heap;
        assert pre == RemoveSlot(h0, position);
        if position > 0 && heap[position].1 <= heap[Parent(position)].1 {
          PercolateUp(position);
          UpRepaired(pre, position, heap, index);
        } else {
          PercolateDown(position);
          DownRepaired(pre, position, heap, index);
        }
      }
    }

    /**
     * `_heapify`: sifts down every slot from the last parent back to the root,
     * then records every slot in the index.  Entries already indexed may sit
     * anywhere in the heap beforehand.
     */
    method Heapify()
      requires Distinct(heap) && index.Keys <= Elements(heap)
      modifies this
      ensures Valid()
      ensures heap == HeapifyFrom(old(heap), |old(heap)| / 2 - 1)
      ensures multiset(heap) == multiset(old(heap))
    {
      var start := |heap| / 2 - 1;
      var i := start;
      while i >= 0
        invariant -1 <= i < |heap| == |old(heap)|
        invariant index == old(index)
        invariant HeapifyFrom(heap, i) == HeapifyFrom(old(heap), start)
      {
        PercolateDownNoIndex(i);
        i := i - 1;
      }
      assert heap == HeapifyFrom(old(heap), start);
      assert HeapOrdered(heap) && Distinct(heap) && multiset(heap) == multiset(old(heap)) by {
        LeavesOrdered(old(heap));
        HeapifyCorrect(old(heap), start);
      }
      assert index.Keys <= Elements(heap) by {
        ElementsOfPermutation(heap, old(heap));
      }
      ghost var ordered := heap;
      var j := 0;
      while j < |heap|
        invariant 0 <= j <= |heap| && heap == ordered
        invariant forall k :: 0 <= k < j ==> heap[k].0 in index && index[heap[k].0] == k
        invariant index.Keys <= Elements(heap)
      {
        index := index[heap[j].0 := j];
        j := j + 1;
      }
      IndexRestored(heap, index, heap);
    }

    /**
     * `_percolate_up`: the entry at `start` climbs while its parent has a
     * strictly greater priority; each displaced parent moves down and is
     * re-indexed, and the entry is written and indexed where it stops.
     */
    method PercolateUp(start: int)
      requires 0 <= start < |heap| && IndexedExcept(heap, index, start, heap[start].0)
      modifies this
      ensures heap == SiftUp(old(heap), start, old(heap)[start])
      ensures AllIndexed(heap, index)
      ensures index.Keys == old(index).Keys + {old(heap)[start].0}
      ensures ChangesPlaced(heap, index, old(index))
    {
      var current := heap[start];
      var position := start;
      var p := Parent(position);
      while p >= 0 && heap[p].1 > current.1
        invariant 0 <= position < |heap| == |old(heap)| && p == Parent(position)
        invariant SiftUp(heap, position, current) == SiftUp(old(heap), start, current)
        invariant IndexedExcept(heap, index, position, current.0)
        invariant index.Keys == old(index).Keys
        invariant MovesPlaced(heap, index, old(index), position)
        decreases position
      {
        var moved := heap[p];
        HoleMove(heap, index, old(index), position, p, current.0);
        heap := heap[position := moved];
        index := index[moved.0 := position];
        position := p;
        p := Parent(position);
      }
      HoleFill(heap, index, old(index), position, current);
      heap := heap[position := current];
      index := index[current.0 := position];
    }

    /**
     * `_percolate_up_bin_search`: finds the final slot first, by binary search
     * over the levels of the path to the root, then shifts the ancestors down.
     * When heap order holds along the path above `start` (as it does whenever
     * the heap is ready for sift-up there) it ends exactly as `_percolate_up`.
     */
    method PercolateUpBinSearch(start: nat)
      requires start < |heap| && PathOrdered(heap, start) && IndexedExcept(heap, index, start, heap[start].0)
      modifies this
      ensures heap == SiftUp(old(heap), start, old(heap)[start])
      ensures AllIndexed(heap, index)
      ensures index.Keys == old(index).Keys + {old(heap)[start].0}
      ensures ChangesPlaced(heap, index, old(index))
    {
      var position := start;
      var newPosition := InsertionSlot(position);
      var current := heap[position];
      while position != newPosition
        invariant 0 <= position < |heap| == |old(heap)|
        invariant newPosition == UpTarget(heap, position, current.1)
        invariant SiftUp(heap, position, current) == SiftUp(old(heap), start, current)
        invariant IndexedExcept(heap, index, position, current.0)
        invariant index.Keys == old(index).Keys
        invariant MovesPlaced(heap, index, old(index), position)
        decreases position
      {
        SiftUpTowardTarget(heap, position, current);
        var p := Parent(position);
        var moved := heap[p];
        HoleMove(heap, index, old(index), position, p, current.0);
        heap := heap[position := moved];
        index := index[moved.0 := position];
        position := p;
      }
      SiftUpTowardTarget(heap, position, current);
      HoleFill(heap, index, old(index), position, current);
      heap := heap[position := current];
      index := index[current.0 := position];
    }

    /**
     * The first two steps of `_percolate_up_bin_search`: the tree level of
     * `position`, and the binary search over the levels of its path.  Under
     * heap order along the path this is the slot where linear sift-up stops.
     */
    method InsertionSlot(position: nat) returns (newPosition: nat)
      requires position < |heap| && PathOrdered(heap, position)
      ensures newPosition == UpTarget(heap, position, heap[position].1)
    {
      var currentLevel := TreeLevel(position);
      newPosition := AncestorInsertionIndex(heap, position, currentLevel, 0, currentLevel);
      AncestorInsertionIndexIsUpTarget(heap, position);
    }

    /**
     * `_percolate_down`: the entry at `start` sinks while its smaller child
     * has a strictly smaller priority; each promoted child is re-indexed, and
     * the entry is written and indexed where it stops.
     */
    method PercolateDown(start: int)
      requires 0 <= start < |heap| && IndexedExcept(heap, index, start, heap[start].0)
      modifies this
      ensures heap == SiftDown(old(heap), start, old(heap)[start])
      ensures AllIndexed(heap, index)
      ensures index.Keys == old(index).Keys + {old(heap)[start].0}
      ensures ChangesPlaced(heap, index, old(index))
    {
      var position := start;
      var minChildPos := Left(position);
      var current := heap[position];
      while minChildPos < |heap|
        invariant 0 <= position < |heap| == |old(heap)| && minChildPos == Left(position)
        invariant SiftDown(heap, position, current) == SiftDown(old(heap), start, current)
        invariant IndexedExcept(heap, index, position, current.0)
        invariant index.Keys == old(index).Keys
        invariant MovesPlaced(heap, index, old(index), position)
        decreases |heap| - position
      {
        if minChildPos + 1 < |heap| && heap[minChildPos + 1].1 < heap[minChildPos].1 {
          minChildPos := minChildPos + 1;
        }
        SiftDownStep(heap, position, current, minChildPos);
        if heap[minChildPos].1 < current.1 {
          var moved := heap[minChildPos];
          HoleMove(heap, index, old(index), position, minChildPos, current.0);
          heap := heap[position := moved];
          index := index[moved.0 := position];
          position := minChildPos;
          minChildPos := Left(position);
        } else {
          break;
        }
      }
      HoleFill(heap, index, old(index), position, current);
      heap := heap[position := current];
      index := index[current.0 := position];
    }

    /** `_percolate_down_no_index`: `_percolate_down` without touching the index. */
    method PercolateDownNoIndex(start: int)
      requires 0 <= start < |heap|
      modifies this`heap
      ensures heap == SiftDown(old(heap), start, old(heap)[start])
    {
      var position := start;
      var minChildPos := Left(position);
      var current := heap[position];
      while minChildPos < |heap|
        invariant 0 <= position < |heap| == |old(heap)| && minChildPos == Left(position)
        invariant SiftDown(heap, position, current) == SiftDown(old(heap), start, current)
        decreases |heap| - position
      {
        if minChildPos + 1 < |heap| && heap[minChildPos + 1].1 < heap[minChildPos].1 {
          minChildPos := minChildPos + 1;
        }
        SiftDownStep(heap, position, current, minChildPos);
        if heap[minChildPos].1 < current.1 {
          heap := heap[position := heap[minChildPos]];
          position := minChildPos;
          minChildPos := Left(position);
        } else {
          break;
        }
      }
      heap := heap[position := current];
    }
  }
}
