/**
 * Index arithmetic of an array-backed binary heap (lib/pq.py, and the same
 * helpers in pq.py): slots are numbered from 0, the root is slot 0, and the
 * tree is complete.  Python's `//` floors; Dafny's `/` is Euclidean, and the
 * two agree whenever the divisor is positive, which it always is here.
 */
module HeapIndex {

  /** Left child of slot `i` (`_left`). */
  function Left(i: int): int { 2 * i + 1 }

  /** Right child of slot `i` (`_right`). */
  function Right(i: int): int { 2 * i + 2 }

  /** Parent of slot `i` (`_parent`); the "parent" of the root is -1, as `(0-1)//2` is in Python. */
  function Parent(i: int): int { (i - 1) / 2 }

  /** 2 to the power `a` (the `1 << a` of `_ancestor`). */
  function Pow2(a: nat): (r: nat)
    ensures r >= 1
  {
    if a == 0 then 1 else 2 * Pow2(a - 1)
  }

  /**
   * Ancestor of slot `i` at distance `a`, in closed form (`_ancestor`).
   * AncestorIsRepeatedParent shows it is `a` parent links.
   */
  function Ancestor(i: int, a: nat): (r: int)
    ensures a == 0 ==> r == i
  {
    (i - Pow2(a) + 1) / Pow2(a)
  }

  /** Python's `int.bit_length` on a non-negative integer. */
  function BitLength(n: nat): (r: nat)
    ensures n == 0 <==> r == 0
    ensures n > 0 ==> Pow2(r - 1) <= n < Pow2(r)
  {
    if n == 0 then 0 else 1 + BitLength(n / 2)
  }

  /** Level of slot `i` in the tree, the root being level 0 (`_tree_level`). */
  function TreeLevel(i: nat): (r: nat)
    ensures Pow2(r) <= i + 1 < Pow2(r + 1)
  {
    BitLength(i + 1) - 1
  }

  /** The ancestor at distance `a`, by following `a` parent links one at a time. */
  function AncestorByParents(i: int, a: nat): int
  {
    if a == 0 then i else Parent(AncestorByParents(i, a - 1))
  }

  /** The children of slot `i` are exactly the slots whose parent is `i`. */
  lemma ParentOfChildren(i: int, k: int)
    requires 0 <= i && 0 < k
    ensures Parent(0) == -1
    ensures Parent(Left(i)) == i && Parent(Right(i)) == i
    ensures Right(i) == Left(i) + 1
    ensures Parent(k) == i <==> k == Left(i) || k == Right(i)
    ensures 0 <= Parent(k) < k
  {
  }

  lemma MulAtLeast(d: int, k: int)
    requires d > 0 && k >= 1
    ensures d * k >= d
  {
  }

  /** Euclidean division has a unique quotient. */
  lemma DivUnique(x: int, d: int, q: int, r: int)
    requires d > 0 && 0 <= r < d && x == d * q + r
    ensures x / d == q
  {
    if x / d > q {
      MulAtLeast(d, x / d - q);
    } else if x / d < q {
      MulAtLeast(d, q - x / d);
    }
  }

  /** Dividing by `d` and then by 2 is dividing by `2 * d`. */
  lemma DivTwice(x: int, d: int)
    requires d > 0
    ensures (x / d) / 2 == x / (2 * d)
  {
    var q, r := x / (2 * d), x % (2 * d);
    assert x == (2 * d) * q + r && 0 <= r < 2 * d;
    if r < d {
      assert x == d * (2 * q) + r;
      DivUnique(x, d, 2 * q, r);
      DivUnique(x / d, 2, q, 0);
    } else {
      assert x == d * (2 * q + 1) + (r - d);
      DivUnique(x, d, 2 * q + 1, r - d);
      DivUnique(x / d, 2, q, 1);
    }
  }

  /** One more step of distance is one more parent link. */
  lemma AncestorStep(i: int, a: nat)
    ensures Ancestor(i, a + 1) == Parent(Ancestor(i, a))
  {
    var p := Pow2(a);
    var x := i + 1;
    assert Pow2(a + 1) == 2 * p;
    DivUnique(x - p, p, x / p - 1, x % p);
    DivUnique(x - 2 * p, 2 * p, x / (2 * p) - 1, x % (2 * p));
    DivTwice(x, p);
    DivUnique(x / p - 2, 2, (x / p) / 2 - 1, (x / p) % 2);
  }

  /** The closed form of `_ancestor` agrees with following parent links. */
  lemma {:induction false} AncestorIsRepeatedParent(i: int, a: nat)
    ensures Ancestor(i, a) == AncestorByParents(i, a)
  {
    if a > 0 {
      AncestorIsRepeatedParent(i, a - 1);
      AncestorStep(i, a - 1);
    }
  }

  lemma {:induction false} Pow2Monotone(a: nat, b: nat)
    requires a <= b
    ensures Pow2(a) <= Pow2(b)
  {
    if a < b {
      Pow2Monotone(a, b - 1);
    }
  }

  /** Every ancestor within the tree height is a slot between the root and `i`. */
  lemma {:induction false} AncestorBounds(i: nat, a: nat)
    requires a <= TreeLevel(i)
    ensures 0 <= Ancestor(i, a) <= i
    ensures a > 0 ==> Ancestor(i, a) < i
  {
    if a > 0 {
      AncestorBounds(i, a - 1);
      AncestorStep(i, a - 1);
    }
    Pow2Monotone(a, TreeLevel(i));
    var p, x := Pow2(a), i + 1 - Pow2(a);
    if x / p < 0 {
      MulAtLeast(p, -(x / p));
    }
  }

  /** Following `_tree_level(i)` parent links from `i` reaches the root. */
  lemma AncestorAtTreeLevelIsRoot(i: nat)
    ensures Ancestor(i, TreeLevel(i)) == 0
  {
    var l := TreeLevel(i);
    assert Pow2(l + 1) == 2 * Pow2(l);
    DivUnique(i + 1 - Pow2(l), Pow2(l), 0, i + 1 - Pow2(l));
  }
}
