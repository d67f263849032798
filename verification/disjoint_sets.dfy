/**
 * The disjoint-set forest `DisjointSets` of lib/disjointsets.py: union by rank
 * and recursive path compression.
 *
 * The source keeps one `_DJSetNode` object per element, with fields `data`,
 * `p` (parent) and `rank`, and a dictionary `_nodes` from element to node.
 * Here the nodes live in an arena: node `i` has `data[i]`, `parent[i]` and
 * `rank[i]`, and `nodes` maps each element to its node id.  Comparing node
 * objects by identity becomes comparing ids.
 */
module DisjointSetForest {

  // ---------------------------------------------------------------------
  // The forest as a pure structure
  // ---------------------------------------------------------------------

  /**
   * Every parent is a node, and every node that is not a root has a strictly
   * smaller rank than its parent.  This bounds every path to a root.
   */
  ghost predicate RankOrdered(parent: seq<nat>, rank: seq<nat>)
  {
    && |rank| == |parent|
    && forall i :: 0 <= i < |parent| ==> parent[i] < |parent| && (parent[i] != i ==> rank[i] < rank[parent[i]])
  }

  /** An upper bound of every rank. */
  function MaxRank(rank: seq<nat>): (m: nat)
    ensures forall i :: 0 <= i < |rank| ==> rank[i] <= m
  {
    if |rank| == 0 then 0
    else
      var m := MaxRank(rank[..|rank| - 1]);
      if rank[|rank| - 1] > m then rank[|rank| - 1] else m
  }

  /** The root of the tree holding node `i`. */
  ghost function Root(parent: seq<nat>, rank: seq<nat>, i: nat): (r: nat)
    requires RankOrdered(parent, rank) && i < |parent|
    ensures r < |parent| && parent[r] == r
    decreases MaxRank(rank) - rank[i]
  {
    if parent[i] == i then i else Root(parent, rank, parent[i])
  }

  /** The nodes on the path from `i` to its root, both included. */
  ghost function PathSet(parent: seq<nat>, rank: seq<nat>, i: nat): set<nat>
    requires RankOrdered(parent, rank) && i < |parent|
    decreases MaxRank(rank) - rank[i]
  {
    if parent[i] == i then {i} else {i} + PathSet(parent, rank, parent[i])
  }

  /**
   * Along the path from `i` ranks strictly increase: every other node on it,
   * the root included, has a larger rank than `i`, and all of them share the
   * root of `i`.
   */
  lemma {:induction false} PathFacts(parent: seq<nat>, rank: seq<nat>, i: nat)
    requires RankOrdered(parent, rank) && i < |parent|
    ensures Root(parent, rank, i) in PathSet(parent, rank, i)
    ensures forall j :: j in PathSet(parent, rank, i) ==>
      j < |parent| && Root(parent, rank, j) == Root(parent, rank, i) && (j != i ==> rank[i] < rank[j])
    ensures parent[i] != i ==> rank[i] < rank[Root(parent, rank, i)]
    decreases MaxRank(rank) - rank[i]
  {
    if parent[i] != i {
      PathFacts(parent, rank, parent[i]);
    }
  }

  /** Pointing node `j` straight at its root (one step of path compression) keeps the forest ordered. */
  lemma RedirectOrdered(parent: seq<nat>, rank: seq<nat>, j: nat)
    requires RankOrdered(parent, rank) && j < |parent|
    ensures RankOrdered(parent[j := Root(parent, rank, j)], rank)
  {
    PathFacts(parent, rank, j);
  }

  /** Pointing node `j` straight at its root changes no node's root. */
  lemma {:induction false} RedirectKeepsRoots(parent: seq<nat>, rank: seq<nat>, j: nat, i: nat)
    requires RankOrdered(parent, rank) && j < |parent| && i < |parent|
    requires RankOrdered(parent[j := Root(parent, rank, j)], rank)
    ensures Root(parent[j := Root(parent, rank, j)], rank, i) == Root(parent, rank, i)
    decreases MaxRank(rank) - rank[i]
  {
    var r := Root(parent, rank, j);
    var parent' := parent[j := r];
    if i == j {
      if r != j {
        assert Root(parent', rank, r) == r;
      }
    } else if parent[i] != i {
      RedirectKeepsRoots(parent, rank, j, parent[i]);
    }
  }

  /**
   * Making root `a` a child of root `b` (with any ranks that keep the forest
   * ordered) sends every node of the tree of `a` to `b` and leaves every
   * other node's root alone.
   */
  lemma {:induction false} AttachRoots(parent: seq<nat>, rank: seq<nat>, rank': seq<nat>, a: nat, b: nat, i: nat)
    requires RankOrdered(parent, rank) && a < |parent| && b < |parent| && i < |parent|
    requires parent[a] == a && parent[b] == b
    requires RankOrdered(parent[a := b], rank')
    ensures Root(parent[a := b], rank', i) == if Root(parent, rank, i) == a then b else Root(parent, rank, i)
    decreases MaxRank(rank) - rank[i]
  {
    var parent' := parent[a := b];
    if i == a {
      if b != a {
        assert Root(parent', rank', b) == b;
      }
    } else if parent[i] != i {
      AttachRoots(parent, rank, rank', a, b, parent[i]);
    }
  }

  /**
   * `_link` on the roots `nx` and `ny`, read on the whole forest: every node
   * whose root was `nx` or `ny` now has the winner of the rank comparison as
   * its root, and every other node keeps its root.
   */
  lemma LinkRoots(parent: seq<nat>, rank: seq<nat>, parent': seq<nat>, rank': seq<nat>, nx: nat, ny: nat, i: nat)
    requires RankOrdered(parent, rank) && RankOrdered(parent', rank')
    requires nx < |parent| && ny < |parent| && i < |parent| && parent[nx] == nx && parent[ny] == ny
    requires rank[nx] > rank[ny] ==> parent' == parent[ny := nx]
    requires rank[nx] <= rank[ny] ==> parent' == parent[nx := ny]
    ensures Root(parent', rank', i) ==
      if Root(parent, rank, i) == nx || Root(parent, rank, i) == ny then (if rank[nx] > rank[ny] then nx else ny)
      else Root(parent, rank, i)
  {
    if rank[nx] > rank[ny] {
      AttachRoots(parent, rank, rank', ny, nx, i);
    } else {
      AttachRoots(parent, rank, rank', nx, ny, i);
    }
  }

  /** A new node that is its own root, with rank 0, changes no existing node's root. */
  lemma {:induction false} AppendKeepsRoots(parent: seq<nat>, rank: seq<nat>, i: nat)
    requires RankOrdered(parent, rank) && i < |parent|
    requires RankOrdered(parent + [|parent|], rank + [0])
    ensures Root(parent + [|parent|], rank + [0], i) == Root(parent, rank, i)
    decreases MaxRank(rank) - rank[i]
  {
    if parent[i] != i {
      AppendKeepsRoots(parent, rank, parent[i]);
    }
  }

  // ---------------------------------------------------------------------
  // The class
  // ---------------------------------------------------------------------

  class DisjointSets<T(==)> {
    /** `_nodes`: the node of every element. */
    var nodes: map<T, nat>
    /** The `data`, `p` and `rank` fields of every node. */
    var data: seq<T>
    var parent: seq<nat>
    var rank: seq<nat>

    /** The forest is rank-ordered, and elements and nodes correspond one to one. */
    ghost predicate Valid()
      reads this
    {
      && |data| == |parent|
      && RankOrdered(parent, rank)
      && (forall x :: x in nodes ==> nodes[x] < |data| && data[nodes[x]] == x)
      && (forall i :: 0 <= i < |data| ==> data[i] in nodes && nodes[data[i]] == i)
    }

    /** The representative of the set holding `x`: the element at the root of its tree. */
    ghost function Find(x: T): T
      reads this
      requires Valid() && x in nodes
    {
      data[Root(parent, rank, nodes[x])]
    }

    /** `__init__` with no size: an empty forest. */
    constructor ()
      ensures Valid() && nodes == map[]
    {
      nodes := map[];
      data := [];
      parent := [];
      rank := [];
    }

    /** `make_set`: a new singleton set, every other set unchanged. */
    method MakeSet(x: T)
      requires Valid() && x !in nodes
      modifies this
      ensures Valid()
      ensures nodes.Keys == old(nodes).Keys + {x}
      ensures Find(x) == x
      ensures forall z :: z in old(nodes) ==> Find(z) == old(Find(z))
    {
      var n := |data|;
      assert RankOrdered(parent + [n], rank + [0]);
      forall i | 0 <= i < n
        ensures Root(parent + [n], rank + [0], i) == Root(parent, rank, i)
      {
        AppendKeepsRoots(parent, rank, i);
      }
      nodes := nodes[x := n];
      data := data + [x];
      parent := parent + [n];
      rank := rank + [0];
    }

    /**
     * `_find_set`: the root of node `nx`; on the way back every node of the
     * path is pointed straight at the root.  No node changes root, and no
     * rank changes.
     */
    method FindSetNode(nx: nat) returns (root: nat)
      requires Valid() && nx < |parent|
      modifies this
      ensures Valid()
      ensures nodes == old(nodes) && data == old(data) && rank == old(rank) && |parent| == old(|parent|)
      ensures root == old(Root(parent, rank, nx))
      ensures forall i :: 0 <= i < |parent| ==> Root(parent, rank, i) == old(Root(parent, rank, i))
      ensures forall i :: i in old(PathSet(parent, rank, nx)) ==> i < |parent| && parent[i] == root
      ensures forall i :: 0 <= i < |parent| && i !in old(PathSet(parent, rank, nx)) ==> parent[i] == old(parent[i])
      decreases MaxRank(rank) - rank[nx]
    {
      if nx != parent[nx] {
        ghost var p0 := parent;
        assert nx !in PathSet(p0, rank, p0[nx]) by {
          PathFacts(p0, rank, p0[nx]);
        }
        var r := FindSetNode(parent[nx]);
        ghost var p1 := parent;
        assert Root(p1, rank, nx) == r;
        RedirectOrdered(p1, rank, nx);
        forall i | 0 <= i < |p1|
          ensures Root(p1[nx := r], rank, i) == Root(p1, rank, i)
        {
          RedirectKeepsRoots(p1, rank, nx, i);
        }
        parent := parent[nx := r];
      }
      root := parent[nx];
    }

    /**
     * `_link`: of two roots, the one with strictly larger rank becomes the
     * parent of the other; on a tie `ny` becomes the parent and gains one rank.
     * When both are the same root the source still takes the tie branch.
     */
    method Link(nx: nat, ny: nat)
      requires Valid() && nx < |parent| && ny < |parent| && parent[nx] == nx && parent[ny] == ny
      modifies this
      ensures Valid()
      ensures nodes == old(nodes) && data == old(data)
      ensures old(rank[nx] > rank[ny]) ==> parent == old(parent[ny := nx]) && rank == old(rank)
      ensures old(rank[nx] <= rank[ny]) ==> parent == old(parent[nx := ny])
      ensures old(rank[nx] < rank[ny]) ==> rank == old(rank)
      ensures old(rank[nx] == rank[ny]) ==> rank == old(rank[ny := rank[ny] + 1])
    {
      if rank[nx] > rank[ny] {
        parent := parent[ny := nx];
      } else {
        parent := parent[nx := ny];
        if rank[nx] == rank[ny] {
          rank := rank[ny := rank[ny] + 1];
        }
      }
    }

    /**
     * `union`: finds both roots (compressing both paths) and links them.
     * Afterwards `x` and `y` share a representative, one of their two old
     * ones; every element of their two sets has it, and every element of any
     * other set keeps its representative.
     */
    method Union(x: T, y: T)
      requires Valid() && x in nodes && y in nodes
      modifies this
      ensures Valid() && nodes == old(nodes) && data == old(data)
      ensures Find(x) == Find(y)
      ensures Find(x) == old(Find(x)) || Find(x) == old(Find(y))
      ensures forall z :: z in nodes ==>
        Find(z) == if old(Find(z)) == old(Find(x)) || old(Find(z)) == old(Find(y)) then Find(x) else old(Find(z))
      ensures |rank| == old(|rank|) && forall i :: 0 <= i < |rank| ==> old(rank[i]) <= rank[i]
    {
      var rx := FindSetNode(nodes[x]);
      var ry := FindSetNode(nodes[y]);
      ghost var p1, r1 := parent, rank;
      assert old(Find(x)) == data[rx] && old(Find(y)) == data[ry];
      Link(rx, ry);
      ghost var w := if r1[rx] > r1[ry] then rx else ry;
      LinkRoots(p1, r1, parent, rank, rx, ry, nodes[x]);
      LinkRoots(p1, r1, parent, rank, rx, ry, nodes[y]);
      assert Find(x) == data[w] == Find(y);
      forall z | z in nodes
        ensures Find(z) == if old(Find(z)) == data[rx] || old(Find(z)) == data[ry] then data[w] else old(Find(z))
      {
        var o := Root(p1, r1, nodes[z]);
        assert old(Find(z)) == data[o];
        LinkRoots(p1, r1, parent, rank, rx, ry, nodes[z]);
        assert data[o] == data[rx] ==> o == rx by {
          assert nodes[data[o]] == o && nodes[data[rx]] == rx;
        }
        assert data[o] == data[ry] ==> o == ry by {
          assert nodes[data[o]] == o && nodes[data[ry]] == ry;
        }
      }
    }

    /**
     * `find_set`: the representative of the set of `x`.  Path compression
     * changes no representative, so a repeated call returns the same element.
     */
    method FindSet(x: T) returns (representative: T)
      requires Valid() && x in nodes
      modifies this
      ensures Valid() && nodes == old(nodes) && data == old(data) && rank == old(rank)
      ensures representative == old(Find(x))
      ensures representative in nodes && Find(representative) == representative
      ensures forall z :: z in nodes ==> Find(z) == old(Find(z))
    {
      var root := FindSetNode(nodes[x]);
      representative := data[root];
    }

    /** `in_forest`. */
    method InForest(x: T) returns (present: bool)
      ensures present <==> x in nodes
    {
      present := x in nodes;
    }

    /** `in_set`: whether `x` is in the set whose member `s` is; the finds change no representative. */
    method InSet(x: T, s: T) returns (same: bool)
      requires Valid() && x in nodes && s in nodes
      modifies this
      ensures Valid() && nodes == old(nodes) && data == old(data) && rank == old(rank)
      ensures same <==> old(Find(x)) == old(Find(s))
      ensures forall z :: z in nodes ==> Find(z) == old(Find(z))
    {
      var rx := FindSetNode(nodes[x]);
      var rs := FindSetNode(nodes[s]);
      same := rx == rs;
    }
  }

  /** `__init__` with a size: the integers `0 .. size - 1`, each in a set by itself. */
  method FromSize(size: nat) returns (forest: DisjointSets<int>)
    ensures fresh(forest) && forest.Valid()
    ensures forall j :: j in forest.nodes <==> 0 <= j < size
    ensures forall i :: 0 <= i < size ==> forest.Find(i) == i
  {
    forest := new DisjointSets();
    var i := 0;
    while i < size
      invariant 0 <= i <= size && forest.Valid()
      invariant forall j :: j in forest.nodes <==> 0 <= j < i
      invariant forall j :: 0 <= j < i ==> forest.Find(j) == j
    {
      forest.MakeSet(i);
      i := i + 1;
    }
  }
}
