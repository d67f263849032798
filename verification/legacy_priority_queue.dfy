/**
 * The older indexed binary min-heap `PQ` of pq.py: the same `_heap` list and
 * `_index` dictionary as lib/pq.py, without removal or bulk construction,
 * and with a sift-up that swaps the moving entry with its parent at every
 * step instead of carrying it in a hole.
 */
module LegacyPriorityQueue {
  import opened HeapIndex
  import opened HeapOrder

  class PQ<T(==)> {
    var heap: seq<(T, int)>
    var index: map<T, nat>

    /** Heap order and index consistency. */
    ghost predicate Valid()
      reads this
    {
      IndexConsistent(heap, index) && HeapOrdered(heap)
    }

    /** The priority of every element in the queue. */
    ghost function Contents(): map<T, int>
      reads this
    {
      Priorities(heap)
    }

    /** `__init__`: an empty queue. */
    constructor ()
      ensures Valid() && Contents() == map[]
    {
      heap := [];
      index := map[];
    }

    /** `size`. */
    method Size() returns (n: nat)
      requires Valid()
      ensures n == |Contents()| == |index|
    {
      ConsistentFacts(heap, index);
      DistinctCardinality(heap);
      n := |heap|;
    }

    /** `isEmpty`: holds exactly when the size is 0. */
    method IsEmpty() returns (empty: bool)
      requires Valid()
      ensures empty <==> Contents() == map[]
      ensures empty <==> |index| == 0
    {
      ConsistentFacts(heap, index);
      DistinctCardinality(heap);
      empty := |heap| == 0;
    }

    /** `add`: adds an absent element; a present one leaves the queue untouched. */
    method Add(element: T, value: int) returns (added: bool)
      requires Valid()
      modifies this
      ensures Valid()
      ensures added == (element !in old(Contents()))
      ensures added ==> Contents() == old(Contents())[element := value] && |heap| == old(|heap|) + 1
      ensures !added ==> heap == old(heap) && index == old(index)
    {
      ConsistentFacts(heap, index);
      if element in index {
        return false;
      }
      var x := (element, value);
      var position := |heap|;
      ghost var h0 := heap;
      heap := heap + [x];
      ghost var pre := heap;
      UpReadyAfterAppend(h0, x);
      PrioritiesAppend(h0, x);
      PercolateUp(position);
      UpRepaired(pre, position, heap, index);
      return true;
    }

    /** `peekMin`: an element of minimum priority, the one at the root. */
    method PeekMin() returns (element: T)
      requires Valid() && Contents() != map[]
      ensures element in Contents()
      ensures forall e :: e in Contents() ==> Contents()[element] <= Contents()[e]
      ensures element == heap[0].0
    {
      ConsistentFacts(heap, index);
      element := heap[0].0;
      RootIsMinimumOfContents(heap);
    }

    /** `extractMin`: removes and returns an element of minimum priority. */
    method ExtractMin() returns (minElement: T)
      requires Valid() && Contents() != map[]
      modifies this
      ensures Valid()
      ensures minElement == old(heap)[0].0
      ensures minElement in old(Contents())
      ensures forall e :: e in old(Contents()) ==> old(Contents())[minElement] <= old(Contents())[e]
      ensures Contents() == old(Contents()) - {minElement}
      ensures minElement !in index && |heap| == old(|heap|) - 1
    {
      ghost var h0, index0 := heap, index;
      assert |h0| > 0 && Distinct(h0) by {
        ConsistentFacts(h0, index0);
      }
      minElement := heap[0].0;
      assert minElement in Priorities(h0) && forall e :: e in Priorities(h0) ==> Priorities(h0)[minElement] <= Priorities(h0)[e] by {
        RootIsMinimumOfContents(h0);
      }
      var oldLast := heap[|heap| - 1];
      heap := heap[..|heap| - 1];
      if |heap| > 0 {
        heap := heap[0 := oldLast];
        ghost var pre := heap;
        assert pre == RemoveSlot(h0, 0);
        ExtractReady(h0, index0);
        PercolateDown(0);
        DownRepairedWithout(pre, 0, heap, index, minElement);
        index := index - {minElement};
      } else {
        index := index - {minElement};
        assert Valid() && Contents() == Priorities(h0) - {minElement} by {
          ConsistentAfterPop(h0, index0);
          PrioritiesRemoveSlot(h0, 0);
        }
      }
    }

    /** `contains`: holds exactly when the element is a key of the index. */
    method Contains(element: T) returns (present: bool)
      requires Valid()
      ensures present <==> element in Contents()
      ensures present <==> element in index
    {
      ConsistentFacts(heap, index);
      present := element in index;
    }

    /** `getPriorityValue` (an absent element raises `KeyError` in the source). */
    method GetPriorityValue(element: T) returns (value: int)
      requires Valid() && element in Contents()
      ensures value == Contents()[element]
    {
      ConsistentFacts(heap, index);
      value := heap[index[element]].1;
    }

    /** `changePriorityValue`: gives a present element a new priority; an absent one changes nothing. */
    method ChangePriorityValue(element: T, value: int) returns (present: bool)
      requires Valid()
      modifies this
      ensures Valid()
      ensures present == (element in old(Contents()))
      ensures present ==> Contents() == old(Contents())[element := value]
      ensures !present ==> heap == old(heap) && index == old(index)
      ensures |heap| == old(|heap|)
    {
      present := Contains(element);
      if !present {
        return;
      }
      var position := index[element];
      ghost var h0 := heap;
      var x := (element, value);
      assert h0[position].0 == element;
      ReplaceReady(h0, index, position, value);
      if heap[position].1 > value {
        heap := heap[position := x];
        ghost var pre := heap;
        PercolateUp(position);
        UpRepaired(pre, position, heap, index);
      } else if heap[position].1 < value {
        heap := heap[position := x];
        ghost var pre := heap;
        PercolateDown(position);
        DownRepaired(pre, position, heap, index);
      } else {
        assert h0[position := x] == h0;
      }
    }

    /**
     * `_percolateUp`: while the parent has a strictly greater priority, the
     * entry and its parent swap places and the parent is re-indexed at its new
     * slot; the entry itself is indexed once, where it stops.  The result is
     * the hole-based sift-up: the entry always sits in the slot the hole
     * would occupy.
     */
    method PercolateUp(start: int)
      requires 0 <= start < |heap| && IndexedExcept(heap, index, start, heap[start].0)
      modifies this
      ensures heap == SiftUp(old(heap), start, old(heap)[start])
      ensures AllIndexed(heap, index)
      ensures index.Keys == old(index).Keys + {old(heap)[start].0}
      ensures ChangesPlaced(heap, index, old(index))
    {
      var position := start;
      var current := heap[position];
      var p := Parent(position);
      while p >= 0 && heap[p].1 > heap[position].1
        invariant 0 <= position < |heap| == |old(heap)| && p == Parent(position)
        invariant heap[position] == current
        invariant SiftUp(heap, position, current) == SiftUp(old(heap), start, current)
        invariant IndexedExcept(heap, index, position, current.0)
        invariant index.Keys == old(index).Keys
        invariant MovesPlaced(heap, index, old(index), position)
        decreases position
      {
        var moved := heap[p];
        HoleMove(heap, index, old(index), position, p, current.0);
        heap := heap[position := moved];
        index := index[moved.0 := position];
        SiftUpIgnoresHole(heap, p, current, current);
        heap := heap[p := current];
        position := p;
        p := Parent(position);
      }
      HoleFill(heap, index, old(index), position, current);
      assert heap[position := current] == heap;
      index := index[current.0 := position];
    }

    /**
     * `_percolateDown`: the entry at `start` sinks while its smaller child has
     * a strictly smaller priority; each promoted child is re-indexed, and the
     * entry is written and indexed where it stops.
     */
    method PercolateDown(start: int)
      requires 0 <= start < |heap| && IndexedExcept(heap, index, start, heap[start].0)
      modifies this
      ensures heap == SiftDown(old(heap), start, old(heap)[start])
      ensures AllIndexed(heap, index)
      ensures index.Keys == old(index).Keys + {old(heap)[start].0}
      ensures ChangesPlaced(heap, index, old(index))
    {
      var position := start;
      var minChildPos := Left(position);
      var current := heap[position];
      while minChildPos < |heap|
        invariant 0 <= position < |heap| == |old(heap)| && minChildPos == Left(position)
        invariant SiftDown(heap, position, current) == SiftDown(old(heap), start, current)
        invariant IndexedExcept(heap, index, position, current.0)
        invariant index.Keys == old(index).Keys
        invariant MovesPlaced(heap, index, old(index), position)
        decreases |heap| - position
      {
        if minChildPos + 1 < |heap| && heap[minChildPos + 1].1 < heap[minChildPos].1 {
          minChildPos := minChildPos + 1;
        }
        SiftDownStep(heap, position, current, minChildPos);
        if heap[minChildPos].1 < current.1 {
          var moved := heap[minChildPos];
          HoleMove(heap, index, old(index), position, minChildPos, current.0);
          heap := heap[position := moved];
          index := index[moved.0 := position];
          position := minChildPos;
          minChildPos := Left(position);
        } else {
          break;
        }
      }
      HoleFill(heap, index, old(index), position, current);
      heap := heap[position := current];
      index := index[heap[position].0 := position];
    }
  }
}
