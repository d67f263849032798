/**
 * The invariants of an indexed binary min-heap and the pure meaning of its
 * repair routines.
 *
 * A heap is a sequence of (element, priority) entries read as a complete
 * binary tree; an index maps each element to its slot.  The routines of
 * lib/pq.py and pq.py that move entries around a "hole" are specified here
 * as functions (SiftUp, SiftDown, UpTarget), and the lemmas below prove what
 * the source relies on: they permute the entries, keep elements distinct and
 * restore heap order.  The classes in PriorityQueue and LegacyPriorityQueue
 * prove their loops equal to these functions.
 */
module HeapOrder {
  import opened HeapIndex

  // ---------------------------------------------------------------------
  // Contents of a heap sequence
  // ---------------------------------------------------------------------

  /** The elements stored in `h`. */
  ghost function Elements<T>(h: seq<(T, int)>): set<T>
  {
    set i | 0 <= i < |h| :: h[i].0
  }

  /** No element occupies two slots. */
  ghost predicate Distinct<T>(h: seq<(T, int)>)
  {
    forall i, j :: 0 <= i < j < |h| ==> h[i].0 != h[j].0
  }

  /** The priority of every stored element: the abstract value of a queue. */
  ghost function Priorities<T>(h: seq<(T, int)>): map<T, int>
  {
    map e | e in Elements(h) :: (var i :| 0 <= i < |h| && h[i].0 == e; h[i].1)
  }

  /** Index consistency: every slot is indexed by its element, and every indexed element is at its slot. */
  ghost predicate IndexConsistent<T>(h: seq<(T, int)>, index: map<T, nat>)
  {
    && (forall i :: 0 <= i < |h| ==> h[i].0 in index && index[h[i].0] == i)
    && (forall e :: e in index ==> index[e] < |h| && h[index[e]].0 == e)
  }

  /**
   * The index is consistent except at slot `hole`: every other slot is indexed
   * by its element, and none of them holds `key`, the element being moved.
   * Index entries for elements no longer in the heap are left unconstrained.
   */
  ghost predicate IndexedExcept<T>(h: seq<(T, int)>, index: map<T, nat>, hole: int, key: T)
  {
    forall i :: 0 <= i < |h| && i != hole ==> h[i].0 in index && index[h[i].0] == i && h[i].0 != key
  }

  /** Removing slot `i` the way the source does: the last entry moves into the vacated slot. */
  ghost function RemoveSlot<T>(h: seq<(T, int)>, i: nat): seq<(T, int)>
    requires i < |h|
  {
    if i == |h| - 1 then h[..|h| - 1] else h[..|h| - 1][i := h[|h| - 1]]
  }

  /** RemoveSlot drops the last slot and, unless slot `i` was the last, puts the last entry at `i`; every other slot is kept. */
  lemma RemoveSlotShape<T>(h: seq<(T, int)>, i: nat)
    requires i < |h|
    ensures |RemoveSlot(h, i)| == |h| - 1
    ensures i < |h| - 1 ==> RemoveSlot(h, i)[i] == h[|h| - 1]
    ensures forall j :: 0 <= j < |h| - 1 && j != i ==> RemoveSlot(h, i)[j] == h[j]
  {
  }

  lemma PrioritiesAt<T>(h: seq<(T, int)>, i: int)
    requires Distinct(h) && 0 <= i < |h|
    ensures h[i].0 in Priorities(h) && Priorities(h)[h[i].0] == h[i].1
  {
    assert h[i].0 in Elements(h);
  }

  /** A map with the right keys and the right value at every slot is the priority map. */
  lemma PrioritiesUnique<T>(h: seq<(T, int)>, m: map<T, int>)
    requires Distinct(h)
    requires m.Keys == Elements(h)
    requires forall i :: 0 <= i < |h| ==> m[h[i].0] == h[i].1
    ensures Priorities(h) == m
  {
    forall e | e in m
      ensures e in Priorities(h) && Priorities(h)[e] == m[e]
    {
      var i :| 0 <= i < |h| && h[i].0 == e;
      PrioritiesAt(h, i);
    }
  }

  /** An index-consistent heap has distinct elements, and its index covers exactly its elements. */
  lemma ConsistentFacts<T>(h: seq<(T, int)>, index: map<T, nat>)
    requires IndexConsistent(h, index)
    ensures Distinct(h)
    ensures index.Keys == Elements(h) == Priorities(h).Keys
    ensures forall e :: e in index ==> Priorities(h)[e] == h[index[e]].1
  {
    forall e | e in index
      ensures e in Elements(h) && Priorities(h)[e] == h[index[e]].1
    {
      PrioritiesAt(h, index[e]);
    }
  }

  /** Two arrangements of the same distinct entries hold the same priorities. */
  lemma PrioritiesOfPermutation<T>(h1: seq<(T, int)>, h2: seq<(T, int)>)
    requires Distinct(h1) && Distinct(h2)
    requires multiset(h1) == multiset(h2)
    ensures Priorities(h1) == Priorities(h2)
  {
    forall i | 0 <= i < |h2|
      ensures h2[i].0 in Elements(h1) && Priorities(h1)[h2[i].0] == h2[i].1
    {
      assert h2[i] in multiset(h2);
      var j :| 0 <= j < |h1| && h1[j] == h2[i];
      PrioritiesAt(h1, j);
    }
    forall e | e in Elements(h1)
      ensures e in Elements(h2)
    {
      var j :| 0 <= j < |h1| && h1[j].0 == e;
      assert h1[j] in multiset(h1);
      var i :| 0 <= i < |h2| && h2[i] == h1[j];
    }
    PrioritiesUnique(h2, Priorities(h1));
  }

  /** Rearranging the entries keeps the set of elements. */
  lemma ElementsOfPermutation<T>(h1: seq<(T, int)>, h2: seq<(T, int)>)
    requires multiset(h1) == multiset(h2)
    ensures Elements(h1) == Elements(h2)
  {
    forall e | e in Elements(h1) ensures e in Elements(h2) {
      var j :| 0 <= j < |h1| && h1[j].0 == e;
      assert h1[j] in multiset(h2);
      var i :| 0 <= i < |h2| && h2[i] == h1[j];
    }
    forall e | e in Elements(h2) ensures e in Elements(h1) {
      var j :| 0 <= j < |h2| && h2[j].0 == e;
      assert h2[j] in multiset(h1);
      var i :| 0 <= i < |h1| && h1[i] == h2[j];
    }
  }

  /** Appending an entry for a new element adds exactly that element. */
  lemma PrioritiesAppend<T>(h: seq<(T, int)>, x: (T, int))
    requires Distinct(h) && x.0 !in Elements(h)
    ensures Distinct(h + [x])
    ensures Elements(h + [x]) == Elements(h) + {x.0}
    ensures Priorities(h + [x]) == Priorities(h)[x.0 := x.1]
  {
    var h' := h + [x];
    forall i | 0 <= i < |h|
      ensures h[i].0 in Elements(h)
    {
    }
    forall i | 0 <= i < |h'|
      ensures Priorities(h)[x.0 := x.1][h'[i].0] == h'[i].1
    {
      if i < |h| {
        PrioritiesAt(h, i);
      }
    }
    assert Elements(h') == Elements(h) + {x.0} by {
      forall e | e in Elements(h')
        ensures e in Elements(h) + {x.0}
      {
        var i :| 0 <= i < |h'| && h'[i].0 == e;
        if i < |h| {
          assert h[i].0 == e;
        }
      }
      forall e | e in Elements(h) ensures e in Elements(h') {
        var i :| 0 <= i < |h| && h[i].0 == e;
        assert h'[i].0 == e;
      }
      assert h'[|h|].0 == x.0;
    }
    PrioritiesUnique(h', Priorities(h)[x.0 := x.1]);
  }

  /** Overwriting the priority stored at slot `i` changes that element's priority only. */
  lemma PrioritiesUpdate<T>(h: seq<(T, int)>, i: int, v: int)
    requires Distinct(h) && 0 <= i < |h|
    ensures Distinct(h[i := (h[i].0, v)])
    ensures Elements(h[i := (h[i].0, v)]) == Elements(h)
    ensures Priorities(h[i := (h[i].0, v)]) == Priorities(h)[h[i].0 := v]
  {
    var h' := h[i := (h[i].0, v)];
    assert Elements(h') == Elements(h) by {
      forall e | e in Elements(h') ensures e in Elements(h) {
        var j :| 0 <= j < |h'| && h'[j].0 == e;
        assert h[j].0 == e;
      }
      forall e | e in Elements(h) ensures e in Elements(h') {
        var j :| 0 <= j < |h| && h[j].0 == e;
        assert h'[j].0 == e;
      }
    }
    forall j | 0 <= j < |h'|
      ensures Priorities(h)[h[i].0 := v][h'[j].0] == h'[j].1
    {
      PrioritiesAt(h, j);
    }
    PrioritiesUnique(h', Priorities(h)[h[i].0 := v]);
  }

  /** Every slot is indexed by its element. */
  ghost predicate AllIndexed<T>(h: seq<(T, int)>, index: map<T, nat>)
  {
    forall i :: 0 <= i < |h| ==> h[i].0 in index && index[h[i].0] == i
  }

  /** Every entry of `index` that differs from `before` points at a slot holding its element. */
  ghost predicate ChangesPlaced<T>(h: seq<(T, int)>, index: map<T, nat>, before: map<T, nat>)
  {
    forall e :: e in before && e in index ==> index[e] == before[e] || (index[e] < |h| && h[index[e]].0 == e)
  }

  /** Sift-loop bookkeeping: changed index entries point at slots other than the hole, holding their element. */
  ghost predicate MovesPlaced<T>(h: seq<(T, int)>, index: map<T, nat>, before: map<T, nat>, hole: int)
  {
    forall e :: e in before && e in index && index[e] != before[e] ==> index[e] < |h| && index[e] != hole && h[index[e]].0 == e
  }

  /** Moving the entry at `src` into the hole and re-indexing it keeps the sift-loop bookkeeping, with the hole now at `src`. */
  lemma HoleMove<T>(h: seq<(T, int)>, index: map<T, nat>, before: map<T, nat>, hole: int, src: int, key: T)
    requires 0 <= hole < |h| && 0 <= src < |h| && src != hole
    requires IndexedExcept(h, index, hole, key) && index.Keys == before.Keys && MovesPlaced(h, index, before, hole)
    ensures IndexedExcept(h[hole := h[src]], index[h[src].0 := hole], src, key)
    ensures index[h[src].0 := hole].Keys == before.Keys
    ensures MovesPlaced(h[hole := h[src]], index[h[src].0 := hole], before, src)
  {
    var h', x := h[hole := h[src]], h[src].0;
    var index' := index[x := hole];
    forall i | 0 <= i < |h'| && i != src
      ensures h'[i].0 in index' && index'[h'[i].0] == i && h'[i].0 != key
    {
      if i != hole {
        assert h'[i] == h[i] && index[h[i].0] == i && index[x] == src;
      }
    }
    forall e | e in before && e in index' && index'[e] != before[e]
      ensures index'[e] < |h'| && index'[e] != src && h'[index'[e]].0 == e
    {
      if e != x {
        assert index'[e] == index[e] && h[index[e]].0 == e;
      }
    }
  }

  /** Writing the moving entry into the hole and indexing it completes the index. */
  lemma HoleFill<T>(h: seq<(T, int)>, index: map<T, nat>, before: map<T, nat>, hole: int, cur: (T, int))
    requires 0 <= hole < |h|
    requires IndexedExcept(h, index, hole, cur.0) && index.Keys == before.Keys && MovesPlaced(h, index, before, hole)
    ensures AllIndexed(h[hole := cur], index[cur.0 := hole])
    ensures index[cur.0 := hole].Keys == before.Keys + {cur.0}
    ensures ChangesPlaced(h[hole := cur], index[cur.0 := hole], before)
  {
  }

  /** Overwriting the entry at `pos` of an indexed heap with one for the same element leaves only `pos` to index. */
  lemma ExceptAfterReplace<T>(h: seq<(T, int)>, index: map<T, nat>, pos: int, x: (T, int))
    requires IndexConsistent(h, index) && 0 <= pos < |h| && x.0 == h[pos].0
    ensures IndexedExcept(h[pos := x], index, pos, x.0)
  {
    ConsistentFacts(h, index);
  }

  /**
   * Moving the last entry of an indexed heap into slot `pos` leaves only `pos`
   * to index, also once the removed element's entry is dropped from the index.
   */
  lemma ExceptAfterRemoveSlot<T>(h: seq<(T, int)>, index: map<T, nat>, index': map<T, nat>, pos: nat)
    requires IndexConsistent(h, index) && pos < |h| - 1
    requires forall e :: e in index && e != h[pos].0 ==> e in index' && index'[e] == index[e]
    ensures IndexedExcept(RemoveSlot(h, pos), index', pos, h[|h| - 1].0)
  {
    ConsistentFacts(h, index);
    var h' := RemoveSlot(h, pos);
    forall i | 0 <= i < |h'| && i != pos
      ensures h'[i].0 in index' && index'[h'[i].0] == i && h'[i].0 != h[|h| - 1].0
    {
      assert h'[i] == h[i];
    }
  }

  /** The index keys left after removing slot `pos` and re-adding the moved last element are the remaining elements. */
  lemma RemoveSlotKeys<T>(h: seq<(T, int)>, index: map<T, nat>, pos: nat)
    requires IndexConsistent(h, index) && pos < |h| - 1
    ensures (index.Keys - {h[pos].0}) + {h[|h| - 1].0} == Elements(RemoveSlot(h, pos))
  {
    ConsistentFacts(h, index);
    PrioritiesRemoveSlot(h, pos);
    assert index[h[|h| - 1].0] == |h| - 1;
  }

  /**
   * Removing interior slot `pos` of a valid heap (the last entry moved into
   * it, the removed element dropped from the index) leaves only `pos` to
   * index, and the heap ready for sift-up or sift-down there, according to
   * how the moved entry compares with its new parent.
   */
  lemma RemoveInterior<T>(h: seq<(T, int)>, index: map<T, nat>, pos: nat)
    requires IndexConsistent(h, index) && HeapOrdered(h) && pos < |h| - 1
    ensures var pre := RemoveSlot(h, pos);
      && Distinct(pre)
      && IndexedExcept(pre, index - {h[pos].0}, pos, pre[pos].0)
      && (index - {h[pos].0}).Keys + {pre[pos].0} == Elements(pre)
      && (index - {h[pos].0}).Keys == Elements(pre)
      && (0 < pos && pre[pos].1 <= pre[Parent(pos)].1 ==> UpReady(pre, pos))
      && (!(0 < pos && pre[pos].1 <= pre[Parent(pos)].1) ==> DownReady(pre, pos, 0))
  {
    var pre := RemoveSlot(h, pos);
    assert Distinct(pre) by {
      ConsistentFacts(h, index);
      PrioritiesRemoveSlot(h, pos);
    }
    assert IndexedExcept(pre, index - {h[pos].0}, pos, pre[pos].0) by {
      ExceptAfterRemoveSlot(h, index, index - {h[pos].0}, pos);
    }
    assert (index - {h[pos].0}).Keys + {pre[pos].0} == Elements(pre) by {
      RemoveSlotKeys(h, index, pos);
    }
    assert (index - {h[pos].0}).Keys == Elements(pre) by {
      ConsistentFacts(h, index);
      PrioritiesRemoveSlot(h, pos);
    }
    RemovedSlotReady(h, pos);
  }

  /**
   * `extract_min` on a valid heap of two or more entries: once the last entry
   * is moved to the root, the heap is ready for sift-down there, only the root
   * is left to index, and the index still holds the stale entry of the
   * removed minimum.
   */
  lemma ExtractReady<T>(h: seq<(T, int)>, index: map<T, nat>)
    requires IndexConsistent(h, index) && HeapOrdered(h) && 1 < |h|
    ensures var pre := RemoveSlot(h, 0);
      && Distinct(pre) && DownReady(pre, 0, 0)
      && IndexedExcept(pre, index, 0, pre[0].0)
      && index.Keys == Elements(pre) + {h[0].0} && h[0].0 !in Elements(pre)
      && Priorities(pre) == Priorities(h) - {h[0].0}
  {
    var pre := RemoveSlot(h, 0);
    RemoveInterior(h, index, 0);
    assert IndexedExcept(pre, index, 0, pre[0].0) by {
      ExceptAfterRemoveSlot(h, index, index, 0);
    }
    assert Priorities(pre) == Priorities(h) - {h[0].0} by {
      ConsistentFacts(h, index);
      PrioritiesRemoveSlot(h, 0);
    }
  }

  /** Removing interior slot `pos` of an ordered heap leaves it ready for the sift the source chooses. */
  lemma RemovedSlotReady<T>(h: seq<(T, int)>, pos: nat)
    requires HeapOrdered(h) && pos < |h| - 1
    ensures var pre := RemoveSlot(h, pos);
      && (0 < pos && pre[pos].1 <= pre[Parent(pos)].1 ==> UpReady(pre, pos))
      && (!(0 < pos && pre[pos].1 <= pre[Parent(pos)].1) ==> DownReady(pre, pos, 0))
  {
    var hp, last := h[..|h| - 1], h[|h| - 1];
    OrderedPrefix(h, |h| - 1);
    assert RemoveSlot(h, pos) == hp[pos := last];
    if 0 < pos && last.1 <= hp[Parent(pos)].1 {
      ParentOfChildren(Parent(pos), pos);
      UpReadyAfterDecrease(hp, pos, last);
    } else {
      DownReadyAfterReplace(hp, pos, last);
    }
  }

  /**
   * Giving the element at `pos` of a valid heap the priority `v` leaves only
   * `pos` to index, changes that element's priority only, and leaves the heap
   * ready for sift-up when the priority falls and for sift-down when it rises.
   */
  lemma ReplaceReady<T>(h: seq<(T, int)>, index: map<T, nat>, pos: int, v: int)
    requires IndexConsistent(h, index) && HeapOrdered(h) && 0 <= pos < |h|
    ensures var pre := h[pos := (h[pos].0, v)];
      && Distinct(pre) && index.Keys == Elements(pre)
      && Priorities(pre) == Priorities(h)[h[pos].0 := v]
      && IndexedExcept(pre, index, pos, h[pos].0)
      && (v < h[pos].1 ==> UpReady(pre, pos))
      && (v > h[pos].1 ==> DownReady(pre, pos, 0))
  {
    var x := (h[pos].0, v);
    assert index.Keys == Elements(h) by {
      ConsistentFacts(h, index);
    }
    PrioritiesUpdate(h, pos, v);
    ExceptAfterReplace(h, index, pos, x);
    if v < h[pos].1 {
      UpReadyAfterDecrease(h, pos, x);
    } else if v > h[pos].1 {
      if 0 < pos {
        ParentOfChildren(Parent(pos), pos);
      }
      DownReadyAfterReplace(h, pos, x);
    }
  }

  /** Dropping the last slot of an indexed heap, and the index entry of its element. */
  lemma ConsistentAfterPop<T>(h: seq<(T, int)>, index: map<T, nat>)
    requires IndexConsistent(h, index) && |h| > 0
    ensures IndexConsistent(h[..|h| - 1], index - {h[|h| - 1].0})
  {
    ConsistentFacts(h, index);
  }

  /** An element no slot holds can be dropped from an index that records every slot. */
  lemma AllIndexedWithout<T>(h: seq<(T, int)>, index: map<T, nat>, e: T)
    requires AllIndexed(h, index) && e !in Elements(h)
    ensures AllIndexed(h, index - {e})
  {
    forall i | 0 <= i < |h| ensures h[i].0 != e {
      assert h[i].0 in Elements(h);
    }
  }

  /** Removing a slot (last entry moved into it) removes exactly that element. */
  lemma PrioritiesRemoveSlot<T>(h: seq<(T, int)>, i: nat)
    requires Distinct(h) && i < |h|
    ensures Distinct(RemoveSlot(h, i))
    ensures Elements(RemoveSlot(h, i)) == Elements(h) - {h[i].0}
    ensures Priorities(RemoveSlot(h, i)) == Priorities(h) - {h[i].0}
  {
    var h', n := RemoveSlot(h, i), |h|;
    RemoveSlotDistinct(h, i);
    var m := Priorities(h) - {h[i].0};
    forall j | 0 <= j < |h'|
      ensures h'[j].0 in m && m[h'[j].0] == h'[j].1
    {
      if j == i {
        assert h'[j] == h[n - 1];
        PrioritiesAt(h, n - 1);
      } else {
        assert h'[j] == h[j];
        PrioritiesAt(h, j);
      }
    }
    forall e | e in m ensures e in Elements(h') {
      var j :| 0 <= j < n && h[j].0 == e;
      if j == n - 1 {
        assert h'[i].0 == e;
      } else {
        assert h'[j].0 == e;
      }
    }
    assert m.Keys == Elements(h') by {
      forall e | e in Elements(h') ensures e in m {
        var j :| 0 <= j < |h'| && h'[j].0 == e;
      }
    }
    PrioritiesUnique(h', m);
  }

  /** Removing a slot keeps the remaining elements distinct. */
  lemma RemoveSlotDistinct<T>(h: seq<(T, int)>, i: nat)
    requires Distinct(h) && i < |h|
    ensures Distinct(RemoveSlot(h, i))
  {
    var h', n := RemoveSlot(h, i), |h|;
    forall a, b | 0 <= a < b < |h'| ensures h'[a].0 != h'[b].0 {
      if a == i {
        assert h'[a] == h[n - 1] && h'[b] == h[b] && b < n - 1;
      } else if b == i {
        assert h'[b] == h[n - 1] && h'[a] == h[a] && a < n - 1;
      } else {
        assert h'[a] == h[a] && h'[b] == h[b];
      }
    }
  }

  /** Distinct elements: as many elements as slots. */
  lemma {:induction false} DistinctCardinality<T>(h: seq<(T, int)>)
    requires Distinct(h)
    ensures |Elements(h)| == |h| == |Priorities(h)|
  {
    if |h| > 0 {
      var h', x := h[..|h| - 1], h[|h| - 1];
      assert h == h' + [x];
      DistinctCardinality(h');
      assert x.0 !in Elements(h');
      PrioritiesAppend(h', x);
      assert Elements(h) == Elements(h') + {x.0};
    }
    assert Priorities(h).Keys == Elements(h);
  }

  // ---------------------------------------------------------------------
  // Heap order
  // ---------------------------------------------------------------------

  /** Heap order on every parent/child edge whose parent slot is at least `lo`. */
  ghost predicate OrderedFrom<T>(h: seq<(T, int)>, lo: int)
  {
    forall k :: 0 < k < |h| && lo <= Parent(k) ==> h[Parent(k)].1 <= h[k].1
  }

  /** Heap order: no entry has a smaller priority than its parent. */
  ghost predicate HeapOrdered<T>(h: seq<(T, int)>)
  {
    OrderedFrom(h, 0)
  }

  /** In an ordered heap the root holds a minimum priority. */
  lemma {:induction false} RootIsMinimum<T>(h: seq<(T, int)>, k: int)
    requires HeapOrdered(h) && 0 <= k < |h|
    ensures h[0].1 <= h[k].1
    decreases k
  {
    if k > 0 {
      ParentOfChildren(0, k);
      RootIsMinimum(h, Parent(k));
    }
  }

  /** In an ordered heap with distinct elements, the root's element has a minimum priority. */
  lemma RootIsMinimumOfContents<T>(h: seq<(T, int)>)
    requires Distinct(h) && HeapOrdered(h) && |h| > 0
    ensures h[0].0 in Priorities(h)
    ensures forall e :: e in Priorities(h) ==> Priorities(h)[h[0].0] <= Priorities(h)[e]
  {
    PrioritiesAt(h, 0);
    forall e | e in Priorities(h)
      ensures Priorities(h)[h[0].0] <= Priorities(h)[e]
    {
      var k :| 0 <= k < |h| && h[k].0 == e;
      PrioritiesAt(h, k);
      RootIsMinimum(h, k);
    }
  }

  /**
   * Ready for sift-up at `pos`: heap order holds on every edge except the one
   * above `pos`, and the parent of `pos` is no larger than the children of `pos`.
   */
  ghost predicate UpReady<T>(h: seq<(T, int)>, pos: int)
  {
    && 0 <= pos < |h|
    && (forall k :: 0 < k < |h| && k != pos ==> h[Parent(k)].1 <= h[k].1)
    && (0 < pos ==> ChildrenAtLeast(h, pos, h[Parent(pos)].1))
  }

  /**
   * Ready for sift-down at `pos` (edges with a parent below `lo` are not
   * considered): heap order holds on every edge except those below `pos`, and
   * the parent of `pos` is no larger than the children of `pos`.
   */
  ghost predicate DownReady<T>(h: seq<(T, int)>, pos: int, lo: int)
  {
    && 0 <= lo <= pos < |h|
    && (forall k :: 0 < k < |h| && lo <= Parent(k) && Parent(k) != pos ==> h[Parent(k)].1 <= h[k].1)
    && (lo <= Parent(pos) ==> ChildrenAtLeast(h, pos, h[Parent(pos)].1))
  }

  /** Every child of slot `pos` has a priority of at least `v`. */
  ghost predicate ChildrenAtLeast<T>(h: seq<(T, int)>, pos: int, v: int)
  {
    && (0 <= Left(pos) < |h| ==> v <= h[Left(pos)].1)
    && (0 <= Right(pos) < |h| ==> v <= h[Right(pos)].1)
  }

  /**
   * Sift-up with a hole: `cur` is the entry logically at `pos`; each parent with
   * a strictly greater priority moves down into the hole, and `cur` lands where
   * the climb stops.  What `h` physically holds at `pos` is never read.
   */
  function SiftUp<T>(h: seq<(T, int)>, pos: int, cur: (T, int)): (r: seq<(T, int)>)
    requires 0 <= pos < |h|
    ensures |r| == |h|
    decreases pos
  {
    if 0 < pos && h[Parent(pos)].1 > cur.1 then SiftUp(h[pos := h[Parent(pos)]], Parent(pos), cur)
    else h[pos := cur]
  }

  /** The slot where sift-up from `pos` of an entry with priority `key` stops. */
  function UpTarget<T>(h: seq<(T, int)>, pos: int, key: int): (r: int)
    requires 0 <= pos < |h|
    ensures 0 <= r <= pos
    decreases pos
  {
    if 0 < pos && h[Parent(pos)].1 > key then UpTarget(h, Parent(pos), key) else pos
  }

  /**
   * Sift-down with a hole: `cur` is the entry logically at `pos`; the smaller
   * child (the right one only when strictly smaller than the left) moves up
   * into the hole while its priority is strictly less than that of `cur`.
   */
  function SiftDown<T>(h: seq<(T, int)>, pos: int, cur: (T, int)): (r: seq<(T, int)>)
    requires 0 <= pos < |h|
    ensures |r| == |h|
    decreases |h| - pos
  {
    var c := Left(pos);
    if c < |h| then
      var m := if c + 1 < |h| && h[c + 1].1 < h[c].1 then c + 1 else c;
      if h[m].1 < cur.1 then SiftDown(h[pos := h[m]], m, cur) else h[pos := cur]
    else h[pos := cur]
  }

  /** Sift-up moves on exactly while the entry has not reached UpTarget. */
  lemma SiftUpTowardTarget<T>(h: seq<(T, int)>, pos: int, cur: (T, int))
    requires 0 <= pos < |h|
    ensures UpTarget(h, pos, cur.1) == pos ==> SiftUp(h, pos, cur) == h[pos := cur]
    ensures UpTarget(h, pos, cur.1) != pos ==>
      && 0 < pos && 0 <= Parent(pos) < pos && h[Parent(pos)].1 > cur.1
      && SiftUp(h, pos, cur) == SiftUp(h[pos := h[Parent(pos)]], Parent(pos), cur)
      && UpTarget(h[pos := h[Parent(pos)]], Parent(pos), cur.1) == UpTarget(h, pos, cur.1)
  {
    if 0 < pos && h[Parent(pos)].1 > cur.1 {
      ParentOfChildren(0, pos);
      UpTargetIgnoresBelow(h, Parent(pos), pos, h[Parent(pos)], cur.1);
    }
  }

  /** One iteration of a sift-down loop: `m` is the child the source picks. */
  lemma SiftDownStep<T>(h: seq<(T, int)>, pos: int, cur: (T, int), m: int)
    requires 0 <= pos < |h| && Left(pos) < |h|
    requires m == if Left(pos) + 1 < |h| && h[Left(pos) + 1].1 < h[Left(pos)].1 then Left(pos) + 1 else Left(pos)
    ensures h[m].1 < cur.1 ==> SiftDown(h, pos, cur) == SiftDown(h[pos := h[m]], m, cur)
    ensures h[m].1 >= cur.1 ==> SiftDown(h, pos, cur) == h[pos := cur]
  {
  }

  /** Exchanging two slots keeps the entries and their distinctness. */
  lemma SwapKeepsEntries<T>(s: seq<(T, int)>, i: int, j: int)
    requires 0 <= i < |s| && 0 <= j < |s|
    ensures multiset(s[i := s[j]][j := s[i]]) == multiset(s)
    ensures Distinct(s) ==> Distinct(s[i := s[j]][j := s[i]])
  {
    var t := s[i := s[j]][j := s[i]];
    if Distinct(s) {
      forall a, b | 0 <= a < b < |t| ensures t[a].0 != t[b].0 {
        var a' := if a == i then j else if a == j then i else a;
        var b' := if b == i then j else if b == j then i else b;
        assert t[a] == s[a'] && t[b] == s[b'] && a' != b';
      }
    }
  }

  /**
   * Shifting the entry at `m` into the hole at `pos` and moving the hole to
   * `m` is exchanging the two slots of the sequence with `cur` in the hole.
   */
  lemma HoleShift<T>(h: seq<(T, int)>, pos: int, m: int, cur: (T, int))
    requires 0 <= pos < |h| && 0 <= m < |h| && pos != m
    ensures h[pos := h[m]][m := cur] == h[pos := cur][pos := h[pos := cur][m]][m := h[pos := cur][pos]]
    ensures multiset(h[pos := h[m]][m := cur]) == multiset(h[pos := cur])
    ensures Distinct(h[pos := cur]) ==> Distinct(h[pos := h[m]][m := cur])
  {
    var l := h[pos := cur];
    assert h[pos := h[m]][m := cur] == l[pos := l[m]][m := l[pos]];
    SwapKeepsEntries(l, pos, m);
  }

  /** One step of sift-up: exchanging `pos` with its larger parent moves the readiness to the parent. */
  lemma UpStep<T>(l: seq<(T, int)>, pos: int)
    requires UpReady(l, pos) && 0 < pos && l[Parent(pos)].1 > l[pos].1
    ensures UpReady(l[pos := l[Parent(pos)]][Parent(pos) := l[pos]], Parent(pos))
  {
    var p := Parent(pos);
    var l' := l[pos := l[p]][p := l[pos]];
    ParentOfChildren(p, pos);
    forall k | 0 < k < |l'| && k != p
      ensures l'[Parent(k)].1 <= l'[k].1
    {
      ParentOfChildren(pos, k);
      ParentOfChildren(p, k);
      if k == pos {
      } else if Parent(k) == pos {
        assert l'[k] == l[k];
      } else if Parent(k) == p {
        assert l'[k] == l[k];
      } else {
        assert l'[k] == l[k] && l'[Parent(k)] == l[Parent(k)];
      }
    }
    if 0 < p {
      ParentOfChildren(Parent(p), p);
      assert l'[Parent(p)] == l[Parent(p)];
      assert l[Parent(p)].1 <= l[p].1;
      if Left(p) < |l'| && Left(p) != pos {
        assert l'[Left(p)] == l[Left(p)];
      }
      if Right(p) < |l'| && Right(p) != pos {
        assert l'[Right(p)] == l[Right(p)];
      }
    }
  }

  /** Sift-up stops in an ordered heap. */
  lemma UpStop<T>(l: seq<(T, int)>, pos: int)
    requires UpReady(l, pos) && (pos == 0 || l[Parent(pos)].1 <= l[pos].1)
    ensures HeapOrdered(l)
  {
  }

  /**
   * What the hole physically holds does not matter to sift-up: this is what
   * lets the swap-based `_percolateUp` of pq.py, which keeps writing the moving
   * entry into the hole, be read as the hole-based sift-up.
   */
  lemma SiftUpIgnoresHole<T>(h: seq<(T, int)>, pos: int, y: (T, int), cur: (T, int))
    requires 0 <= pos < |h|
    ensures SiftUp(h[pos := y], pos, cur) == SiftUp(h, pos, cur)
  {
    if 0 < pos {
      ParentOfChildren(0, pos);
      assert h[pos := y][Parent(pos)] == h[Parent(pos)];
      assert h[pos := y][pos := h[Parent(pos)]] == h[pos := h[Parent(pos)]];
    }
    assert h[pos := y][pos := cur] == h[pos := cur];
  }

  /** Sift-up permutes the entries, restores heap order and puts `cur` at UpTarget. */
  lemma {:induction false} SiftUpCorrect<T>(h: seq<(T, int)>, pos: int, cur: (T, int))
    requires 0 <= pos < |h| && UpReady(h[pos := cur], pos)
    ensures multiset(SiftUp(h, pos, cur)) == multiset(h[pos := cur])
    ensures Distinct(h[pos := cur]) ==> Distinct(SiftUp(h, pos, cur))
    ensures HeapOrdered(SiftUp(h, pos, cur))
    decreases pos
  {
    var l := h[pos := cur];
    if 0 < pos && h[Parent(pos)].1 > cur.1 {
      var p := Parent(pos);
      ParentOfChildren(p, pos);
      HoleShift(h, pos, p, cur);
      UpStep(l, pos);
      SiftUpCorrect(h[pos := h[p]], p, cur);
    } else {
      UpStop(l, pos);
    }
  }

  /** Sift-up puts `cur` at the slot where the climb stops. */
  lemma {:induction false} SiftUpPlaces<T>(h: seq<(T, int)>, pos: int, cur: (T, int))
    requires 0 <= pos < |h|
    ensures SiftUp(h, pos, cur)[UpTarget(h, pos, cur.1)] == cur
    decreases pos
  {
    if 0 < pos && h[Parent(pos)].1 > cur.1 {
      SiftUpPlaces(h[pos := h[Parent(pos)]], Parent(pos), cur);
      UpTargetIgnoresBelow(h, Parent(pos), pos, h[Parent(pos)], cur.1);
    }
  }

  /** One step of sift-down: exchanging `pos` with its smaller, smaller-than-`pos` child moves the readiness to that child. */
  lemma DownStep<T>(l: seq<(T, int)>, pos: int, m: int, lo: int)
    requires DownReady(l, pos, lo) && (m == Left(pos) || m == Right(pos)) && m < |l| && l[m].1 < l[pos].1
    requires l[m].1 <= l[Left(pos)].1 && (Right(pos) < |l| ==> l[m].1 <= l[Right(pos)].1)
    ensures DownReady(l[pos := l[m]][m := l[pos]], m, lo)
  {
    var l' := l[pos := l[m]][m := l[pos]];
    ParentOfChildren(pos, m);
    forall k | 0 < k < |l'| && lo <= Parent(k) && Parent(k) != m
      ensures l'[Parent(k)].1 <= l'[k].1
    {
      ParentOfChildren(pos, k);
      if k == m {
      } else if Parent(k) == pos {
        assert l'[k] == l[k];
      } else if k == pos {
        assert l'[Parent(k)] == l[Parent(k)];
      } else {
        assert l'[k] == l[k] && l'[Parent(k)] == l[Parent(k)];
      }
    }
    ParentOfChildren(m, Left(m));
    if Left(m) < |l'| {
      assert l'[Left(m)] == l[Left(m)];
    }
    if Right(m) < |l'| {
      assert l'[Right(m)] == l[Right(m)];
    }
  }

  /** Sift-down stops with heap order on every edge from `lo` when no child is smaller. */
  lemma DownStop<T>(l: seq<(T, int)>, pos: int, lo: int)
    requires DownReady(l, pos, lo)
    requires Left(pos) < |l| ==> l[pos].1 <= l[Left(pos)].1
    requires Right(pos) < |l| ==> l[pos].1 <= l[Right(pos)].1
    ensures OrderedFrom(l, lo)
  {
    forall k | 0 < k < |l| && lo <= Parent(k)
      ensures l[Parent(k)].1 <= l[k].1
    {
      ParentOfChildren(pos, k);
    }
  }

  /** Sift-down permutes the entries and restores heap order on every edge from `lo` down. */
  lemma SiftDownCorrect<T>(h: seq<(T, int)>, pos: int, cur: (T, int), lo: int)
    requires 0 <= pos < |h| && DownReady(h[pos := cur], pos, lo)
    ensures multiset(SiftDown(h, pos, cur)) == multiset(h[pos := cur])
    ensures Distinct(h[pos := cur]) ==> Distinct(SiftDown(h, pos, cur))
    ensures OrderedFrom(SiftDown(h, pos, cur), lo)
  {
    SiftDownPermutes(h, pos, cur);
    SiftDownOrders(h, pos, cur, lo);
  }

  /** Sift-down only exchanges entries. */
  lemma {:induction false} SiftDownPermutes<T>(h: seq<(T, int)>, pos: int, cur: (T, int))
    requires 0 <= pos < |h|
    ensures multiset(SiftDown(h, pos, cur)) == multiset(h[pos := cur])
    ensures Distinct(h[pos := cur]) ==> Distinct(SiftDown(h, pos, cur))
    decreases |h| - pos
  {
    var c := Left(pos);
    if c < |h| {
      var m := if c + 1 < |h| && h[c + 1].1 < h[c].1 then c + 1 else c;
      SiftDownStep(h, pos, cur, m);
      if h[m].1 < cur.1 {
        HoleShift(h, pos, m, cur);
        SiftDownPermutes(h[pos := h[m]], m, cur);
      }
    }
  }

  /** Sift-down from a ready slot leaves every edge from `lo` down ordered. */
  lemma {:induction false} SiftDownOrders<T>(h: seq<(T, int)>, pos: int, cur: (T, int), lo: int)
    requires 0 <= pos < |h| && DownReady(h[pos := cur], pos, lo)
    ensures OrderedFrom(SiftDown(h, pos, cur), lo)
    decreases |h| - pos
  {
    var l := h[pos := cur];
    var c := Left(pos);
    ParentOfChildren(pos, c);
    if c < |h| {
      var m := if c + 1 < |h| && h[c + 1].1 < h[c].1 then c + 1 else c;
      SiftDownStep(h, pos, cur, m);
      if h[m].1 < cur.1 {
        HoleShift(h, pos, m, cur);
        DownStep(l, pos, m, lo);
        SiftDownOrders(h[pos := h[m]], m, cur, lo);
      } else {
        DownStop(l, pos, lo);
      }
    } else {
      DownStop(l, pos, lo);
    }
  }

  /** Appending to an ordered heap leaves it ready for sift-up at the new last slot. */
  lemma UpReadyAfterAppend<T>(h: seq<(T, int)>, x: (T, int))
    requires HeapOrdered(h)
    ensures UpReady(h + [x], |h|)
  {
  }

  /** Lowering the priority at `pos` of an ordered heap leaves it ready for sift-up there. */
  lemma UpReadyAfterDecrease<T>(h: seq<(T, int)>, pos: int, x: (T, int))
    requires HeapOrdered(h) && 0 <= pos < |h| && x.1 <= h[pos].1
    ensures UpReady(h[pos := x], pos)
  {
    var h' := h[pos := x];
    ParentOfChildren(pos, Left(pos));
    forall k | 0 < k < |h'| && k != pos
      ensures h'[Parent(k)].1 <= h'[k].1
    {
      ParentOfChildren(pos, k);
    }
  }

  /**
   * Replacing the entry at `pos` of an ordered heap by one no smaller than the
   * parent of `pos` leaves it ready for sift-down there.
   */
  lemma DownReadyAfterReplace<T>(h: seq<(T, int)>, pos: int, x: (T, int))
    requires HeapOrdered(h) && 0 <= pos < |h|
    requires pos == 0 || h[Parent(pos)].1 <= x.1
    ensures DownReady(h[pos := x], pos, 0)
  {
    ParentOfChildren(pos, Left(pos));
    if 0 < pos {
      ParentOfChildren(Parent(pos), pos);
    }
  }

  /** A prefix of an ordered heap is ordered. */
  lemma OrderedPrefix<T>(h: seq<(T, int)>, n: int)
    requires HeapOrdered(h) && 0 <= n <= |h|
    ensures HeapOrdered(h[..n])
  {
    forall k | 0 < k < n ensures h[..n][Parent(k)].1 <= h[..n][k].1 {
      ParentOfChildren(0, k);
    }
  }

  /** The lower half of a heap has no children: heapify may start at |h| / 2 - 1. */
  lemma LeavesOrdered<T>(h: seq<(T, int)>)
    ensures OrderedFrom(h, |h| / 2)
  {
  }

  /** Sift-down of `_heapify` at slot `i`, once the slots below `i` are heaps. */
  lemma HeapifyStep<T>(h: seq<(T, int)>, i: int)
    requires 0 <= i < |h| && OrderedFrom(h, i + 1)
    ensures DownReady(h[i := h[i]], i, i)
  {
    assert h[i := h[i]] == h;
  }

  /**
   * `_heapify`: sift down every slot from `i` back to the root, each with the
   * entry it holds when its turn comes.
   */
  ghost function HeapifyFrom<T>(h: seq<(T, int)>, i: int): (r: seq<(T, int)>)
    requires -1 <= i < |h|
    ensures |r| == |h|
    decreases i + 1
  {
    if i < 0 then h else HeapifyFrom(SiftDown(h, i, h[i]), i - 1)
  }

  /** Once the slots after `i` root heaps, heapify from `i` permutes the entries into an ordered heap. */
  lemma {:induction false} HeapifyCorrect<T>(h: seq<(T, int)>, i: int)
    requires -1 <= i < |h| && OrderedFrom(h, i + 1)
    ensures multiset(HeapifyFrom(h, i)) == multiset(h)
    ensures Distinct(h) ==> Distinct(HeapifyFrom(h, i))
    ensures HeapOrdered(HeapifyFrom(h, i))
    decreases i + 1
  {
    if 0 <= i {
      HeapifyStep(h, i);
      assert h[i := h[i]] == h;
      SiftDownCorrect(h, i, h[i], i);
      HeapifyCorrect(SiftDown(h, i, h[i]), i - 1);
    }
  }

  /**
   * After a sift, an index that records every slot and has exactly the keys of
   * the entries before the sift is consistent, and the priorities are those
   * before the sift.
   */
  lemma IndexRestored<T>(h: seq<(T, int)>, index: map<T, nat>, pre: seq<(T, int)>)
    requires Distinct(pre) && multiset(h) == multiset(pre)
    requires AllIndexed(h, index)
    requires index.Keys == Elements(pre)
    ensures IndexConsistent(h, index)
    ensures Priorities(h) == Priorities(pre)
  {
    assert Distinct(h) by {
      forall i, j | 0 <= i < j < |h| ensures h[i].0 != h[j].0 {
        assert index[h[i].0] == i && index[h[j].0] == j;
      }
    }
    PrioritiesOfPermutation(h, pre);
    forall e | e in index
      ensures index[e] < |h| && h[index[e]].0 == e
    {
      assert e in Priorities(pre).Keys;
      assert e in Elements(h);
      var i :| 0 <= i < |h| && h[i].0 == e;
    }
  }

  /**
   * After sift-up from a ready slot, an index recording every slot with
   * exactly the keys of the elements is consistent, the heap is ordered, and
   * every element keeps its priority.
   */
  lemma UpRepaired<T>(pre: seq<(T, int)>, pos: int, h: seq<(T, int)>, index: map<T, nat>)
    requires UpReady(pre, pos) && Distinct(pre) && h == SiftUp(pre, pos, pre[pos])
    requires AllIndexed(h, index) && index.Keys == Elements(pre)
    ensures IndexConsistent(h, index) && HeapOrdered(h) && Priorities(h) == Priorities(pre)
  {
    assert pre[pos := pre[pos]] == pre;
    SiftUpCorrect(pre, pos, pre[pos]);
    IndexRestored(h, index, pre);
  }

  /** The sift-down counterpart of UpRepaired. */
  lemma DownRepaired<T>(pre: seq<(T, int)>, pos: int, h: seq<(T, int)>, index: map<T, nat>)
    requires DownReady(pre, pos, 0) && Distinct(pre) && h == SiftDown(pre, pos, pre[pos])
    requires AllIndexed(h, index) && index.Keys == Elements(pre)
    ensures IndexConsistent(h, index) && HeapOrdered(h) && Priorities(h) == Priorities(pre)
  {
    assert pre[pos := pre[pos]] == pre;
    SiftDownCorrect(pre, pos, pre[pos], 0);
    IndexRestored(h, index, pre);
  }

  /**
   * DownRepaired for an index that still holds a stale entry for `e`, an
   * element no longer in the heap: dropping that entry makes it consistent.
   */
  lemma DownRepairedWithout<T>(pre: seq<(T, int)>, pos: int, h: seq<(T, int)>, index: map<T, nat>, e: T)
    requires DownReady(pre, pos, 0) && Distinct(pre) && h == SiftDown(pre, pos, pre[pos])
    requires AllIndexed(h, index) && index.Keys == Elements(pre) + {e} && e !in Elements(pre)
    ensures IndexConsistent(h, index - {e}) && HeapOrdered(h) && Priorities(h) == Priorities(pre)
  {
    assert pre[pos := pre[pos]] == pre;
    SiftDownPermutes(pre, pos, pre[pos]);
    ElementsOfPermutation(h, pre);
    AllIndexedWithout(h, index, e);
    DownRepaired(pre, pos, h, index - {e});
  }

  /** The bulk branch of `add_all`: one more pair of the batch is appended or skipped. */
  lemma BulkAppendStep<T>(h: seq<(T, int)>, o: seq<(T, int)>, pairs: seq<(T, int)>, i: int)
    requires Distinct(pairs) && 0 <= i < |pairs| && Distinct(h)
    requires Priorities(h) == Priorities(pairs[..i]) + Priorities(o)
    ensures pairs[i].0 in Elements(o) ==> Priorities(h) == Priorities(pairs[..i + 1]) + Priorities(o)
    ensures pairs[i].0 !in Elements(o) ==>
      Distinct(h + [pairs[i]]) && Priorities(h + [pairs[i]]) == Priorities(pairs[..i + 1]) + Priorities(o)
  {
    var x := pairs[i];
    assert pairs[..i + 1] == pairs[..i] + [x];
    assert x.0 !in Elements(pairs[..i]);
    PrioritiesAppend(pairs[..i], x);
    var p, q := Priorities(pairs[..i]), Priorities(o);
    if x.0 in Elements(o) {
      OverrideShadowed(p, q, x.0, x.1);
    } else {
      assert x.0 !in Priorities(h);
      PrioritiesAppend(h, x);
      OverrideUnshadowed(p, q, x.0, x.1);
    }
  }

  lemma OverrideShadowed<K, V>(p: map<K, V>, q: map<K, V>, k: K, v: V)
    requires k in q
    ensures p[k := v] + q == p + q
  {
  }

  lemma OverrideUnshadowed<K, V>(p: map<K, V>, q: map<K, V>, k: K, v: V)
    requires k !in q
    ensures p[k := v] + q == (p + q)[k := v]
  {
  }

  /** The one-by-one branch of `add_all`: adding one more pair of the batch. */
  lemma AddEachStep<T>(c: map<T, int>, o: map<T, int>, pairs: seq<(T, int)>, i: int)
    requires Distinct(pairs) && 0 <= i < |pairs|
    requires c == Priorities(pairs[..i]) + o
    ensures (if pairs[i].0 in c then c else c[pairs[i].0 := pairs[i].1]) == Priorities(pairs[..i + 1]) + o
  {
    var x := pairs[i];
    assert pairs[..i + 1] == pairs[..i] + [x];
    assert x.0 !in Elements(pairs[..i]);
    PrioritiesAppend(pairs[..i], x);
    if x.0 in o {
      OverrideShadowed(Priorities(pairs[..i]), o, x.0, x.1);
    } else {
      OverrideUnshadowed(Priorities(pairs[..i]), o, x.0, x.1);
    }
  }

  // ---------------------------------------------------------------------
  // Binary-search sift-up (`_percolate_up_bin_search`)
  // ---------------------------------------------------------------------

  /**
   * `_get_ancestor_insertion_index`: binary search over the tree levels
   * `minTreeLevel..maxTreeLevel` of the path from `position` to the root for
   * the level where the entry at `position` belongs.
   */
  function AncestorInsertionIndex<T>(h: seq<(T, int)>, position: nat, treeLevel: nat,
                                     minTreeLevel: nat, maxTreeLevel: nat): (r: nat)
    requires position < |h| && treeLevel == TreeLevel(position)
    requires minTreeLevel <= maxTreeLevel <= treeLevel
    ensures r <= position
    decreases maxTreeLevel - minTreeLevel
  {
    if minTreeLevel >= maxTreeLevel then
      AncestorBounds(position, treeLevel - maxTreeLevel);
      Ancestor(position, treeLevel - maxTreeLevel)
    else
      var midTreeLevel := (minTreeLevel + maxTreeLevel) / 2;
      AncestorBounds(position, treeLevel - midTreeLevel);
      if h[position].1 < h[Ancestor(position, treeLevel - midTreeLevel)].1 then
        AncestorInsertionIndex(h, position, treeLevel, minTreeLevel, midTreeLevel)
      else
        AncestorInsertionIndex(h, position, treeLevel, midTreeLevel + 1, maxTreeLevel)
  }

  /** The slot at tree level `l` on the path from `pos` to the root. */
  function AtLevel(pos: nat, l: nat): (r: nat)
    requires l <= TreeLevel(pos)
    ensures r <= pos
  {
    AncestorBounds(pos, TreeLevel(pos) - l);
    Ancestor(pos, TreeLevel(pos) - l)
  }

  /** The root is at level 0, `pos` at its own level, and each level is the parent of the next. */
  lemma AtLevelFacts(pos: nat, l: nat)
    requires l <= TreeLevel(pos)
    ensures AtLevel(pos, TreeLevel(pos)) == pos
    ensures AtLevel(pos, 0) == 0
    ensures l < TreeLevel(pos) ==> AtLevel(pos, l) < pos
    ensures 0 < l ==> 0 < AtLevel(pos, l) && Parent(AtLevel(pos, l)) == AtLevel(pos, l - 1)
  {
    AncestorAtTreeLevelIsRoot(pos);
    AncestorBounds(pos, TreeLevel(pos) - l);
    if 0 < l {
      AncestorStep(pos, TreeLevel(pos) - l);
      AncestorBounds(pos, TreeLevel(pos) - (l - 1));
    }
  }

  /** The entry at `pos` belongs at or above level `l`: `l` is its own level or its key is below level `l`'s. */
  ghost predicate BelongsAbove<T>(h: seq<(T, int)>, pos: nat, l: nat)
    requires pos < |h| && l <= TreeLevel(pos)
  {
    l == TreeLevel(pos) || h[pos].1 < h[AtLevel(pos, l)].1
  }

  /** The level where the linear climb from level `l` stops. */
  ghost function Climb<T>(h: seq<(T, int)>, pos: nat, l: nat): (s: nat)
    requires pos < |h| && l <= TreeLevel(pos)
    ensures s <= l
  {
    if 0 < l && h[pos].1 < h[AtLevel(pos, l - 1)].1 then Climb(h, pos, l - 1) else l
  }

  lemma {:induction false} ClimbIsUpTarget<T>(h: seq<(T, int)>, pos: nat, l: nat)
    requires pos < |h| && l <= TreeLevel(pos)
    ensures UpTarget(h, AtLevel(pos, l), h[pos].1) == AtLevel(pos, Climb(h, pos, l))
  {
    AtLevelFacts(pos, l);
    if 0 < l {
      ClimbIsUpTarget(h, pos, l - 1);
    }
  }

  lemma {:induction false} ClimbFacts<T>(h: seq<(T, int)>, pos: nat, l: nat)
    requires pos < |h| && l <= TreeLevel(pos)
    ensures forall j :: Climb(h, pos, l) <= j < l ==> h[pos].1 < h[AtLevel(pos, j)].1
    ensures 0 < Climb(h, pos, l) ==> h[AtLevel(pos, Climb(h, pos, l) - 1)].1 <= h[pos].1
  {
    if 0 < l && h[pos].1 < h[AtLevel(pos, l - 1)].1 {
      ClimbFacts(h, pos, l - 1);
    }
  }

  /**
   * Heap order along the path from the root down to the parent of `pos`:
   * every slot on it is no larger than the next one.
   */
  ghost predicate PathOrdered<T>(h: seq<(T, int)>, pos: nat)
    requires pos < |h|
  {
    forall l :: 0 < l < TreeLevel(pos) ==> h[AtLevel(pos, l - 1)].1 <= h[AtLevel(pos, l)].1
  }

  /** A heap ready for sift-up at `pos` is ordered along the path above `pos`. */
  lemma UpReadyPathOrdered<T>(h: seq<(T, int)>, pos: nat)
    requires UpReady(h, pos)
    ensures PathOrdered(h, pos)
  {
    forall l | 0 < l < TreeLevel(pos)
      ensures h[AtLevel(pos, l - 1)].1 <= h[AtLevel(pos, l)].1
    {
      AtLevelFacts(pos, l);
    }
  }

  /** When the path above `pos` is ordered, its priorities do not decrease going down. */
  lemma {:induction false} PathMonotone<T>(h: seq<(T, int)>, pos: nat, a: nat, b: nat)
    requires pos < |h| && PathOrdered(h, pos) && a <= b < TreeLevel(pos)
    ensures h[AtLevel(pos, a)].1 <= h[AtLevel(pos, b)].1
    decreases b - a
  {
    if a < b {
      PathMonotone(h, pos, a + 1, b);
      AtLevelFacts(pos, a + 1);
    }
  }

  /** When the path above `pos` is ordered, level `j` is at or below the stopping level exactly when `BelongsAbove` holds. */
  lemma Threshold<T>(h: seq<(T, int)>, pos: nat, j: nat)
    requires pos < |h| && PathOrdered(h, pos) && j <= TreeLevel(pos)
    ensures BelongsAbove(h, pos, j) <==> Climb(h, pos, TreeLevel(pos)) <= j
  {
    var s := Climb(h, pos, TreeLevel(pos));
    ClimbFacts(h, pos, TreeLevel(pos));
    if j < s && j < TreeLevel(pos) {
      PathMonotone(h, pos, j, s - 1);
    }
  }

  lemma {:induction false} BinarySearchFinds<T>(h: seq<(T, int)>, pos: nat, lo: nat, hi: nat)
    requires pos < |h| && PathOrdered(h, pos) && hi <= TreeLevel(pos)
    requires lo <= Climb(h, pos, TreeLevel(pos)) <= hi
    ensures AncestorInsertionIndex(h, pos, TreeLevel(pos), lo, hi) == AtLevel(pos, Climb(h, pos, TreeLevel(pos)))
    decreases hi - lo
  {
    if lo < hi {
      var mid := (lo + hi) / 2;
      Threshold(h, pos, mid);
      if h[pos].1 < h[AtLevel(pos, mid)].1 {
        BinarySearchFinds(h, pos, lo, mid);
      } else {
        BinarySearchFinds(h, pos, mid + 1, hi);
      }
    }
  }

  /** When heap order holds along the path, the binary search finds the slot where linear sift-up stops. */
  lemma AncestorInsertionIndexIsUpTarget<T>(h: seq<(T, int)>, pos: nat)
    requires pos < |h| && PathOrdered(h, pos)
    ensures AncestorInsertionIndex(h, pos, TreeLevel(pos), 0, TreeLevel(pos)) == UpTarget(h, pos, h[pos].1)
  {
    BinarySearchFinds(h, pos, 0, TreeLevel(pos));
    ClimbIsUpTarget(h, pos, TreeLevel(pos));
    AtLevelFacts(pos, 0);
  }

  /** UpTarget from `p` reads only slots above `p`. */
  lemma {:induction false} UpTargetIgnoresBelow<T>(h: seq<(T, int)>, p: int, j: int, y: (T, int), key: int)
    requires 0 <= p < j < |h|
    ensures UpTarget(h[j := y], p, key) == UpTarget(h, p, key)
    decreases p
  {
    if 0 < p {
      ParentOfChildren(0, p);
      UpTargetIgnoresBelow(h, Parent(p), j, y, key);
    }
  }
}
