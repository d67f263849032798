/**
 * `MaxPQ` of lib/pq.py: a max-priority queue that stores every priority
 * negated in the min-heap of `PQ`, so that the root holds an element of
 * maximum priority.  The source derives it from `PQ`; here a `MaxPQ` owns a
 * `PQ` and forwards each operation with the priorities negated, which is
 * what every override does.
 */
module MaxPriorityQueue {
  import opened HeapOrder
  import opened PriorityQueue

  /** The pairs with every priority negated, as the overrides store them. */
  function Negated<T>(pairs: seq<(T, int)>): (r: seq<(T, int)>)
    ensures |r| == |pairs|
    ensures forall i :: 0 <= i < |pairs| ==> r[i] == (pairs[i].0, -pairs[i].1)
  {
    seq(|pairs|, i requires 0 <= i < |pairs| => (pairs[i].0, -pairs[i].1))
  }

  /** Every priority of `m` negated. */
  ghost function Negate<T>(m: map<T, int>): map<T, int>
  {
    map e | e in m :: -m[e]
  }

  /** Negating the priorities keeps the elements and negates the priority map. */
  lemma NegatedPriorities<T>(pairs: seq<(T, int)>)
    ensures Elements(Negated(pairs)) == Elements(pairs)
    ensures Distinct(Negated(pairs)) <==> Distinct(pairs)
    ensures Distinct(pairs) ==> Priorities(Negated(pairs)) == Negate(Priorities(pairs))
  {
    var n := Negated(pairs);
    assert Elements(n) == Elements(pairs) by {
      forall e | e in Elements(pairs) ensures e in Elements(n) {
        var i :| 0 <= i < |pairs| && pairs[i].0 == e;
        assert n[i].0 == e;
      }
    }
    if Distinct(pairs) {
      forall i | 0 <= i < |n|
        ensures Negate(Priorities(pairs))[n[i].0] == n[i].1
      {
        PrioritiesAt(pairs, i);
      }
      PrioritiesUnique(n, Negate(Priorities(pairs)));
    }
  }

  /** Negation is its own inverse. */
  lemma NegateInvolution<T>(m: map<T, int>)
    ensures Negate(Negate(m)) == m
  {
  }

  /** Negation commutes with giving one element a priority. */
  lemma NegateUpdate<T>(m: map<T, int>, e: T, v: int)
    ensures Negate(m[e := -v]) == Negate(m)[e := v]
  {
  }

  /** Negation commutes with removing an element. */
  lemma NegateRemove<T>(m: map<T, int>, e: T)
    ensures Negate(m - {e}) == Negate(m) - {e}
  {
  }

  /** Negation commutes with map override. */
  lemma NegateOverride<T>(m': map<T, int>, m: map<T, int>)
    ensures Negate(m' + m) == Negate(m') + Negate(m)
  {
  }

  class MaxPQ<T(==)> {
    /** The min-heap holding every element with its priority negated. */
    const pq: PQ<T>

    ghost predicate Valid()
      reads this, pq
    {
      pq.Valid()
    }

    /** The priority of every element in the queue, as given by the caller. */
    ghost function Contents(): map<T, int>
      reads this, pq
    {
      Negate(pq.Contents())
    }

    /** `__init__`: the queue holds exactly the given pairs. */
    constructor (pairs: seq<(T, int)>)
      requires Distinct(pairs)
      ensures Valid() && fresh(pq)
      ensures Contents() == Priorities(pairs)
    {
      NegatedPriorities(pairs);
      pq := new PQ(Negated(pairs));
      new;
      NegateInvolution(Priorities(pairs));
    }

    /** `size`. */
    method Size() returns (n: nat)
      requires Valid()
      ensures n == |Contents()|
    {
      n := pq.Size();
      assert Contents().Keys == pq.Contents().Keys;
    }

    /** `is_empty`. */
    method IsEmpty() returns (empty: bool)
      requires Valid()
      ensures empty <==> Contents() == map[]
    {
      empty := pq.IsEmpty();
      assert Contents().Keys == pq.Contents().Keys;
    }

    /** `add`: adds an absent element with the given priority; a present one changes nothing. */
    method Add(element: T, value: int) returns (added: bool)
      requires Valid()
      modifies pq
      ensures Valid()
      ensures added == (element !in old(Contents()))
      ensures added ==> Contents() == old(Contents())[element := value]
      ensures !added ==> Contents() == old(Contents())
      ensures !added ==> pq.heap == old(pq.heap) && pq.index == old(pq.index)
    {
      added := pq.Add(element, -value);
      NegateUpdate(old(pq.Contents()), element, value);
    }

    /**
     * `add_all`: adds the pairs whose element is absent, in bulk when the batch
     * is at least as long as the heap and one by one otherwise, exactly as
     * `PQ.add_all` does with the priorities negated.
     */
    method AddAll(pairs: seq<(T, int)>)
      requires Valid() && Distinct(pairs)
      modifies pq
      ensures Valid()
      ensures Contents() == Priorities(pairs) + old(Contents())
    {
      NegatedPriorities(pairs);
      pq.AddAll(Negated(pairs));
      NegateOverride(Priorities(Negated(pairs)), old(pq.Contents()));
      NegateInvolution(Priorities(pairs));
    }

    /**
     * `merge`: adds the entries of another MaxPQ whose element is absent here,
     * copying their stored (negated) priorities as they are; `q` is not changed.
     */
    method Merge(q: MaxPQ<T>)
      requires Valid() && q.Valid()
      modifies pq
      ensures Valid()
      ensures Contents() == old(q.Contents()) + old(Contents())
      ensures q.pq != pq ==> q.pq.heap == old(q.pq.heap) && q.pq.index == old(q.pq.index)
    {
      pq.Merge(q.pq);
      NegateOverride(old(q.pq.Contents()), old(pq.Contents()));
    }

    /** `peek_min` is not supported: it always raises NotImplementedError. */
    method PeekMin() returns (error: Unsupported)
      ensures error == NotImplementedError("peek_min is not supported in a MaxPQ.")
    {
      error := NotImplementedError("peek_min is not supported in a MaxPQ.");
    }

    /** `extract_min` is not supported: it always raises NotImplementedError. */
    method ExtractMin() returns (error: Unsupported)
      ensures error == NotImplementedError("extract_min is not supported in a MaxPQ.")
    {
      error := NotImplementedError("extract_min is not supported in a MaxPQ.");
    }

    /** `peek_max`: an element of maximum priority. */
    method PeekMax() returns (element: T)
      requires Valid() && Contents() != map[]
      ensures element in Contents()
      ensures forall e :: e in Contents() ==> Contents()[e] <= Contents()[element]
    {
      assert Contents().Keys == pq.Contents().Keys;
      element := pq.PeekMin();
    }

    /** `extract_max`: removes and returns an element of maximum priority. */
    method ExtractMax() returns (maxElement: T)
      requires Valid() && Contents() != map[]
      modifies pq
      ensures Valid()
      ensures maxElement in old(Contents())
      ensures forall e :: e in old(Contents()) ==> old(Contents())[e] <= old(Contents())[maxElement]
      ensures Contents() == old(Contents()) - {maxElement}
    {
      assert Contents().Keys == pq.Contents().Keys;
      maxElement := pq.ExtractMin();
      NegateRemove(old(pq.Contents()), maxElement);
    }

    /** `contains`. */
    method Contains(element: T) returns (present: bool)
      requires Valid()
      ensures present <==> element in Contents()
    {
      present := pq.Contains(element);
    }

    /** `get_priority`: the priority last given to the element. */
    method GetPriority(element: T) returns (value: int)
      requires Valid() && element in Contents()
      ensures value == Contents()[element]
    {
      var stored := pq.GetPriority(element);
      value := -stored;
    }

    /** `change_priority`: gives a present element a new priority; an absent one changes nothing. */
    method ChangePriority(element: T, value: int) returns (present: bool)
      requires Valid()
      modifies pq
      ensures Valid()
      ensures present == (element in old(Contents()))
      ensures present ==> Contents() == old(Contents())[element := value]
      ensures !present ==> Contents() == old(Contents())
      ensures !present ==> pq.heap == old(pq.heap) && pq.index == old(pq.index)
    {
      present := pq.ChangePriority(element, -value);
      NegateUpdate(old(pq.Contents()), element, value);
    }

    /** `remove`, inherited unchanged from PQ. */
    method Remove(element: T) returns (present: bool)
      requires Valid()
      modifies pq
      ensures Valid()
      ensures present == (element in old(Contents()))
      ensures present ==> Contents() == old(Contents()) - {element}
      ensures !present ==> Contents() == old(Contents())
      ensures !present ==> pq.heap == old(pq.heap) && pq.index == old(pq.index)
    {
      present := pq.Remove(element);
      NegateRemove(old(pq.Contents()), element);
    }
  }
}
