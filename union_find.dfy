/** Disjoint sets with path compression and union by rank, as used by
    Kruskal's algorithm. The parent and rank vectors are fields that the
    operations reassign; `Root` follows parent links and terminates because
    ranks strictly increase along them. */
module UnionFind {

  /** The largest rank in `rank` (0 for no nodes): bounds every rank. */
  function MaxRank(rank: seq<nat>): (m: nat)
    ensures forall i :: 0 <= i < |rank| ==> rank[i] <= m
  {
    if |rank| == 0 then 0
    else
      var rest := MaxRank(rank[1..]);
      assert forall i :: 1 <= i < |rank| ==> rank[i] == rank[1..][i - 1];
      if rank[0] >= rest then rank[0] else rest
  }

  /** The shape union by rank keeps: every parent is a node, and a node that
      is not a root has a strictly smaller rank than its parent. */
  ghost predicate IsForest(parent: seq<int>, rank: seq<nat>)
  {
    && |parent| == |rank|
    && (forall x :: 0 <= x < |parent| ==> 0 <= parent[x] < |parent|)
    && (forall x :: 0 <= x < |parent| && parent[x] != x ==> rank[x] < rank[parent[x]])
  }

  /** The representative of `x`: the root reached by following parent links. */
  ghost function Root(parent: seq<int>, rank: seq<nat>, x: int): (r: int)
    requires IsForest(parent, rank) && 0 <= x < |parent|
    ensures 0 <= r < |parent| && parent[r] == r
    ensures rank[x] <= rank[r]
    ensures r == x <==> parent[x] == x
    decreases MaxRank(rank) - rank[x]
  {
    if parent[x] == x then x else Root(parent, rank, parent[x])
  }

  /** The set of roots, one per disjoint set. */
  ghost function Roots(parent: seq<int>): set<int>
  {
    set x | 0 <= x < |parent| && parent[x] == x
  }

  /** The nodes 0..n-1, one set each when the structure is created. */
  function Nodes(n: nat): (s: set<int>)
    ensures |s| == n
    ensures forall x :: x in s <==> 0 <= x < n
  {
    if n == 0 then {} else Nodes(n - 1) + {n - 1}
  }

  /** Two forests over the same nodes that give every node the same root. */
  ghost predicate SameRoots(parent: seq<int>, rank: seq<nat>, parent': seq<int>, rank': seq<nat>)
  {
    && IsForest(parent, rank) && IsForest(parent', rank')
    && |parent'| == |parent|
    && forall y :: 0 <= y < |parent| ==> Root(parent', rank', y) == Root(parent, rank, y)
  }

  /** `parent'` comes from `parent` by merging the sets of `x` and `y`: their
      nodes now share one root, one of the two old roots, and every other
      node keeps its root. */
  ghost predicate MergedSets(parent: seq<int>, rank: seq<nat>, parent': seq<int>, rank': seq<nat>, x: int, y: int)
  {
    && IsForest(parent, rank) && IsForest(parent', rank') && |parent'| == |parent|
    && 0 <= x < |parent| && 0 <= y < |parent|
    && (Root(parent', rank', x) == Root(parent, rank, x) || Root(parent', rank', x) == Root(parent, rank, y))
    && forall z :: 0 <= z < |parent| ==>
         Root(parent', rank', z) ==
           if Root(parent, rank, z) == Root(parent, rank, x) || Root(parent, rank, z) == Root(parent, rank, y)
           then Root(parent', rank', x) else Root(parent, rank, z)
  }

  /** Rank `newRank` of node `i` after uniting `x` and `y`: the sets were
      different, their roots had equal ranks, and `i` is `x`'s root, whose
      rank grew by one. */
  ghost predicate RankGrewOnTie(parent: seq<int>, rank: seq<nat>, x: int, y: int, i: int, newRank: nat)
    requires IsForest(parent, rank) && 0 <= x < |parent| && 0 <= y < |parent|
  {
    var rx, ry := Root(parent, rank, x), Root(parent, rank, y);
    rx != ry && i == rx && rank[rx] == rank[ry] && newRank == rank[rx] + 1
  }

  lemma SameRootsTransitive(p0: seq<int>, r0: seq<nat>, p1: seq<int>, r1: seq<nat>, p2: seq<int>, r2: seq<nat>)
    requires SameRoots(p0, r0, p1, r1) && SameRoots(p1, r1, p2, r2)
    ensures SameRoots(p0, r0, p2, r2)
  {
  }

  /** Uniting two nodes already in one set changes no root. */
  lemma SameRootsMerge(p0: seq<int>, r0: seq<nat>, p1: seq<int>, r1: seq<nat>, x: int, y: int)
    requires SameRoots(p0, r0, p1, r1) && 0 <= x < |p0| && 0 <= y < |p0|
    requires Root(p1, r1, x) == Root(p1, r1, y)
    ensures MergedSets(p0, r0, p1, r1, x, y)
  {
  }

  /** Merging the roots of `x` and `y` after path compression merges the sets
      of `x` and `y` of the forest before it. */
  lemma MergeAfterFinds(p0: seq<int>, r0: seq<nat>, p2: seq<int>, r2: seq<nat>, p3: seq<int>, r3: seq<nat>, x: int, y: int)
    requires SameRoots(p0, r0, p2, r2) && 0 <= x < |p0| && 0 <= y < |p0|
    requires MergedSets(p2, r2, p3, r3, Root(p2, r2, x), Root(p2, r2, y))
    ensures MergedSets(p0, r0, p3, r3, x, y)
  {
    var rx, ry := Root(p2, r2, x), Root(p2, r2, y);
    assert Root(p2, r2, rx) == rx && Root(p2, r2, ry) == ry;
    assert Root(p3, r3, x) == Root(p3, r3, rx);
    forall z | 0 <= z < |p0|
      ensures Root(p3, r3, z) ==
        if Root(p0, r0, z) == Root(p0, r0, x) || Root(p0, r0, z) == Root(p0, r0, y)
        then Root(p3, r3, x) else Root(p0, r0, z)
    {
      assert Root(p2, r2, z) == Root(p0, r0, z);
    }
  }

  /** Linking root `a` under root `b`, where `a` and `b` are the roots of `x`
      and `y` in a forest with the same roots as `p0`, merges their sets. */
  lemma LinkMerges(p0: seq<int>, r0: seq<nat>, p2: seq<int>, r2: seq<nat>, rank': seq<nat>, x: int, y: int, a: int, b: int)
    requires SameRoots(p0, r0, p2, r2) && 0 <= x < |p0| && 0 <= y < |p0|
    requires (a == Root(p2, r2, x) && b == Root(p2, r2, y)) || (a == Root(p2, r2, y) && b == Root(p2, r2, x))
    requires a != b
    requires |rank'| == |r2| && rank'[b] >= r2[b] && rank'[a] < rank'[b]
    requires forall i :: 0 <= i < |r2| && i != b ==> rank'[i] == r2[i]
    ensures IsForest(p2[a := b], rank')
    ensures MergedSets(p0, r0, p2[a := b], rank', x, y)
    ensures Roots(p2[a := b]) == Roots(p2) - {a} && a in Roots(p2)
  {
    LinkMovesSet(p2, r2, rank', a, b);
    var p3 := p2[a := b];
    assert Root(p3, rank', x) == b;
    forall z | 0 <= z < |p0|
      ensures Root(p3, rank', z) ==
        if Root(p0, r0, z) == Root(p0, r0, x) || Root(p0, r0, z) == Root(p0, r0, y)
        then Root(p3, rank', x) else Root(p0, r0, z)
    {
      assert Root(p2, r2, z) == Root(p0, r0, z);
    }
  }

  /** Linking root `a` under root `b` merges the sets of the two roots and
      removes `a` from the roots. */
  lemma LinkRoots(p: seq<int>, r: seq<nat>, rank': seq<nat>, x: int, y: int, a: int, b: int)
    requires IsForest(p, r) && 0 <= a < |p| && 0 <= b < |p| && p[a] == a && p[b] == b && a != b
    requires (x == a && y == b) || (x == b && y == a)
    requires |rank'| == |r| && rank'[b] >= r[b] && rank'[a] < rank'[b]
    requires forall i :: 0 <= i < |r| && i != b ==> rank'[i] == r[i]
    ensures IsForest(p[a := b], rank')
    ensures MergedSets(p, r, p[a := b], rank', x, y)
    ensures Roots(p[a := b]) < Roots(p) && |Roots(p[a := b])| == |Roots(p)| - 1
  {
    assert Root(p, r, a) == a && Root(p, r, b) == b;
    LinkMerges(p, r, p, r, rank', x, y, a, b);
  }

  /** Path compression of one node: pointing `x` straight at its root keeps
      the forest shape and changes no node's root. */
  lemma {:induction false} CompressKeepsRoot(parent: seq<int>, rank: seq<nat>, x: int, y: int)
    requires IsForest(parent, rank) && 0 <= x < |parent| && 0 <= y < |parent|
    ensures IsForest(parent[x := Root(parent, rank, x)], rank)
    ensures Root(parent[x := Root(parent, rank, x)], rank, y) == Root(parent, rank, y)
    decreases MaxRank(rank) - rank[y]
  {
    var r := Root(parent, rank, x);
    var p' := parent[x := r];
    if parent[x] != x {
      assert r == Root(parent, rank, parent[x]);
      assert rank[x] < rank[parent[x]] <= rank[r];
    }
    assert IsForest(p', rank);
    if y == x {
      if r != x {
        assert p'[r] == r;
        assert Root(p', rank, r) == r;
      }
    } else if parent[y] != y {
      CompressKeepsRoot(parent, rank, x, parent[y]);
    }
  }

  /** Compression of `x`, stated for every node at once. */
  lemma CompressKeepsRoots(parent: seq<int>, rank: seq<nat>, x: int)
    requires IsForest(parent, rank) && 0 <= x < |parent|
    ensures SameRoots(parent, rank, parent[x := Root(parent, rank, x)], rank)
    ensures Roots(parent[x := Root(parent, rank, x)]) == Roots(parent)
  {
    forall y | 0 <= y < |parent|
      ensures IsForest(parent[x := Root(parent, rank, x)], rank)
      ensures Root(parent[x := Root(parent, rank, x)], rank, y) == Root(parent, rank, y)
    {
      CompressKeepsRoot(parent, rank, x, y);
    }
    CompressKeepsRoot(parent, rank, x, x);
  }

  /** Linking root `a` under root `b` (with `b`'s rank possibly raised so it
      stays above `a`'s) keeps the forest shape and moves exactly the nodes of
      `a`'s set to `b`. */
  lemma {:induction false} LinkMovesOneSet(parent: seq<int>, rank: seq<nat>, rank': seq<nat>, a: int, b: int, y: int)
    requires IsForest(parent, rank)
    requires 0 <= a < |parent| && 0 <= b < |parent| && a != b
    requires parent[a] == a && parent[b] == b
    requires |rank'| == |rank| && rank'[b] >= rank[b] && rank'[a] < rank'[b]
    requires forall i :: 0 <= i < |rank| && i != b ==> rank'[i] == rank[i]
    requires 0 <= y < |parent|
    ensures IsForest(parent[a := b], rank')
    ensures Root(parent[a := b], rank', y) == if Root(parent, rank, y) == a then b else Root(parent, rank, y)
    decreases MaxRank(rank) - rank[y]
  {
    var p' := parent[a := b];
    forall x | 0 <= x < |p'| && p'[x] != x
      ensures rank'[x] < rank'[p'[x]]
    {
      if x != a {
        assert parent[x] != x && x != b;
        assert rank[x] < rank[parent[x]];
      }
    }
    assert IsForest(p', rank');
    if y == a {
      assert Root(p', rank', b) == b;
    } else if parent[y] != y {
      LinkMovesOneSet(parent, rank, rank', a, b, parent[y]);
    }
  }

  /** Linking, stated for every node at once, with its effect on the roots. */
  lemma LinkMovesSet(parent: seq<int>, rank: seq<nat>, rank': seq<nat>, a: int, b: int)
    requires IsForest(parent, rank)
    requires 0 <= a < |parent| && 0 <= b < |parent| && a != b
    requires parent[a] == a && parent[b] == b
    requires |rank'| == |rank| && rank'[b] >= rank[b] && rank'[a] < rank'[b]
    requires forall i :: 0 <= i < |rank| && i != b ==> rank'[i] == rank[i]
    ensures IsForest(parent[a := b], rank')
    ensures forall y :: 0 <= y < |parent| ==>
      Root(parent[a := b], rank', y) == if Root(parent, rank, y) == a then b else Root(parent, rank, y)
    ensures Roots(parent[a := b]) == Roots(parent) - {a}
  {
    forall y | 0 <= y < |parent|
      ensures IsForest(parent[a := b], rank')
      ensures Root(parent[a := b], rank', y) == if Root(parent, rank, y) == a then b else Root(parent, rank, y)
    {
      LinkMovesOneSet(parent, rank, rank', a, b, y);
    }
    LinkMovesOneSet(parent, rank, rank', a, b, a);
  }

  /** The union-find structure of Integrity_Activity_2/main.cpp. */
  class DisjointSets {
    var parent: seq<int>
    var rank: seq<nat>

    ghost predicate Valid()
      reads this
    {
      IsForest(parent, rank)
    }

    /** The set of `x`: its representative in the current forest. */
    ghost function SetOf(x: int): int
      reads this
      requires Valid() && 0 <= x < |parent|
    {
      Root(parent, rank, x)
    }

    /** Every node starts as its own parent with rank 0. */
    constructor (n: nat)
      ensures Valid() && |parent| == n
      ensures forall i :: 0 <= i < n ==> parent[i] == i && rank[i] == 0
      ensures Roots(parent) == Nodes(n) && |Roots(parent)| == n
    {
      var p := seq(n, _ => 0);
      var i := 0;
      while i < n
        invariant 0 <= i <= n && |p| == n
        invariant forall k :: 0 <= k < i ==> p[k] == k
      {
        p := p[i := i];
        i := i + 1;
      }
      parent := p;
      rank := seq(n, _ => 0);
    }

    /** Returns the root of `x`, pointing every node on the way straight at it. */
    method Find(x: int) returns (r: int)
      requires Valid() && 0 <= x < |parent|
      modifies this
      ensures Valid() && rank == old(rank)
      ensures r == Root(old(parent), old(rank), x) && parent[r] == r && parent[x] == r
      ensures SameRoots(old(parent), old(rank), parent, rank)
      ensures Roots(parent) == old(Roots(parent))
      decreases MaxRank(rank) - rank[x]
    {
      if parent[x] != x {
        var root := Find(parent[x]);
        CompressKeepsRoots(parent, rank, x);
        parent := parent[x := root];
      }
      r := parent[x];
    }

    /** Merges the sets of `x` and `y`: the root of lower rank is linked under
        the other, and on equal ranks `y`'s root goes under `x`'s, whose rank
        grows by one. */
    method Unite(x: int, y: int)
      requires Valid() && 0 <= x < |parent| && 0 <= y < |parent|
      modifies this
      ensures Valid() && |parent| == old(|parent|)
      ensures SetOf(x) == SetOf(y)
      ensures MergedSets(old(parent), old(rank), parent, rank, x, y)
      ensures Root(old(parent), old(rank), x) == Root(old(parent), old(rank), y) ==>
        rank == old(rank) && SameRoots(old(parent), old(rank), parent, rank) && Roots(parent) == old(Roots(parent))
      ensures Root(old(parent), old(rank), x) != Root(old(parent), old(rank), y) ==>
        |Roots(parent)| == |old(Roots(parent))| - 1
      ensures forall i :: 0 <= i < |rank| ==>
        rank[i] == old(rank)[i] || RankGrewOnTie(old(parent), old(rank), x, y, i, rank[i])
    {
      ghost var p0, r0 := parent, rank;
      var rootX := Find(x);
      ghost var p1, r1 := parent, rank;
      var rootY := Find(y);
      SameRootsTransitive(p0, r0, p1, r1, parent, rank);
      assert rootX == Root(p0, r0, x) && rootY == Root(p0, r0, y) && rank == r0;
      if rootX == rootY {
        SameRootsMerge(p0, r0, parent, rank, x, y);
        return;
      }
      ghost var p2 := parent;
      Link(rootX, rootY);
      MergeAfterFinds(p0, r0, p2, r0, parent, rank, x, y);
      forall i | 0 <= i < |rank| && rank[i] != r0[i]
        ensures RankGrewOnTie(p0, r0, x, y, i, rank[i])
      {
      }
    }

    /** The linking step of `unite` on two distinct roots: the root of lower
        rank goes under the other; on a tie `rootY` goes under `rootX`, whose
        rank grows by one. */
    method Link(rootX: int, rootY: int)
      requires Valid() && 0 <= rootX < |parent| && 0 <= rootY < |parent|
      requires parent[rootX] == rootX && parent[rootY] == rootY && rootX != rootY
      modifies this
      ensures Valid() && |parent| == old(|parent|)
      ensures MergedSets(old(parent), old(rank), parent, rank, rootX, rootY)
      ensures Roots(parent) < old(Roots(parent)) && |Roots(parent)| == |old(Roots(parent))| - 1
      ensures forall i :: 0 <= i < |rank| ==>
        rank[i] == old(rank)[i] ||
        (i == rootX && old(rank)[rootX] == old(rank)[rootY] && rank[i] == old(rank)[i] + 1)
    {
      ghost var p, r := parent, rank;
      ghost var under, over;
      if rank[rootX] < rank[rootY] {
        parent := parent[rootX := rootY];
        under, over := rootX, rootY;
      } else if rank[rootX] > rank[rootY] {
        parent := parent[rootY := rootX];
        under, over := rootY, rootX;
      } else {
        parent := parent[rootY := rootX];
        rank := rank[rootX := rank[rootX] + 1];
        under, over := rootY, rootX;
      }
      LinkRoots(p, r, rank, rootX, rootY, under, over);
    }
  }
}
