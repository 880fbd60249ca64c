/** Kruskal's minimum spanning tree over an adjacency matrix
    (Integrity_Activity_2/main.cpp). Candidate edges are the pairs i < j with
    a positive weight; they are sorted by weight and an edge is kept when its
    endpoints lie in different sets of the union-find structure. */
module Kruskal {
  import opened UnionFind
  import opened Common

  datatype Edge = Edge(from: int, to: int, weight: int)

  /** An edge the algorithm may use: a pair i < j whose matrix entry is positive. */
  predicate IsCandidate(graph: seq<seq<int>>, n: nat, e: Edge)
    requires IsSquare(graph, n)
  {
    0 <= e.from < e.to < n && graph[e.from][e.to] > 0 && e.weight == graph[e.from][e.to]
  }

  /** Row-major order of the endpoint pairs. */
  predicate PairBefore(a: Edge, b: Edge)
  {
    a.from < b.from || (a.from == b.from && a.to < b.to)
  }

  predicate SortedByWeight(s: seq<Edge>)
  {
    forall i, j :: 0 <= i < j < |s| ==> s[i].weight <= s[j].weight
  }

  // ---- graph notions, independent of the union-find structure ----

  ghost predicate Adjacent(E: seq<Edge>, u: int, v: int)
  {
    exists e :: e in E && ((e.from == u && e.to == v) || (e.from == v && e.to == u))
  }

  /** A walk along edges of `E`, in either direction. */
  ghost predicate IsPath(E: seq<Edge>, p: seq<int>)
  {
    |p| >= 1 && forall i :: 0 <= i < |p| - 1 ==> Adjacent(E, p[i], p[i + 1])
  }

  ghost predicate Connected(E: seq<Edge>, u: int, v: int)
  {
    exists p :: IsPath(E, p) && p[0] == u && p[|p| - 1] == v
  }

  /** No edge closes a cycle: each joins two nodes the earlier edges leave
      unconnected. */
  ghost predicate Acyclic(E: seq<Edge>)
  {
    forall k :: 0 <= k < |E| ==> !Connected(E[..k], E[k].from, E[k].to)
  }

  /** Builds the candidate edges row by row, as the double loop does. */
  method CandidateEdges(n: nat, graph: seq<seq<int>>) returns (edges: seq<Edge>)
    requires IsSquare(graph, n)
    ensures forall e :: e in edges <==> IsCandidate(graph, n, e)
    ensures forall a, b :: 0 <= a < b < |edges| ==> PairBefore(edges[a], edges[b])
  {
    edges := [];
    var i := 0;
    while i < n
      invariant 0 <= i <= n
      invariant forall e :: e in edges <==> IsCandidate(graph, n, e) && e.from < i
      invariant forall a, b :: 0 <= a < b < |edges| ==> PairBefore(edges[a], edges[b])
    {
      var j := i + 1;
      while j < n
        invariant i + 1 <= j <= n
        invariant forall e :: e in edges <==>
          IsCandidate(graph, n, e) && (e.from < i || (e.from == i && e.to < j))
        invariant forall a, b :: 0 <= a < b < |edges| ==> PairBefore(edges[a], edges[b])
      {
        if graph[i][j] > 0 {
          edges := edges + [Edge(i, j, graph[i][j])];
        }
        j := j + 1;
      }
      i := i + 1;
    }
  }

  /** Inserts `e` before the first edge that is not lighter. */
  function InsertByWeight(e: Edge, s: seq<Edge>): (r: seq<Edge>)
    ensures |r| == |s| + 1
  {
    if s == [] then [e]
    else if e.weight <= s[0].weight then [e] + s
    else [s[0]] + InsertByWeight(e, s[1..])
  }

  /** Inserting into a sorted sequence keeps it sorted; the result starts
      with `e` or with the old first edge. */
  lemma {:induction false} InsertKeepsSorted(e: Edge, s: seq<Edge>)
    requires SortedByWeight(s)
    ensures SortedByWeight(InsertByWeight(e, s))
    ensures InsertByWeight(e, s)[0] == e || (|s| > 0 && InsertByWeight(e, s)[0] == s[0])
  {
    if s != [] && e.weight > s[0].weight {
      InsertKeepsSorted(e, s[1..]);
    }
  }

  /** Inserting adds `e` and loses nothing. */
  lemma {:induction false} InsertAddsOne(e: Edge, s: seq<Edge>)
    ensures multiset(InsertByWeight(e, s)) == multiset(s) + multiset{e}
  {
    if s != [] && e.weight > s[0].weight {
      InsertAddsOne(e, s[1..]);
      assert s == [s[0]] + s[1..];
    }
  }

  /** A sort by ascending weight; the order among equal weights is left to
      the library sort in the C++ program, and this model picks one. */
  function SortByWeight(s: seq<Edge>): (r: seq<Edge>)
    ensures SortedByWeight(r)
    ensures multiset(r) == multiset(s)
  {
    if s == [] then []
    else
      var rest := SortByWeight(s[1..]);
      InsertKeepsSorted(s[0], rest);
      InsertAddsOne(s[0], rest);
      assert s == [s[0]] + s[1..];
      InsertByWeight(s[0], rest)
  }

  /** Every edge of `E` joins two nodes of the same set. */
  ghost predicate EdgesWithinSets(E: seq<Edge>, parent: seq<int>, rank: seq<nat>)
  {
    && IsForest(parent, rank)
    && forall e :: e in E ==>
         0 <= e.from < |parent| && 0 <= e.to < |parent| &&
         Root(parent, rank, e.from) == Root(parent, rank, e.to)
  }

  /** Re-rooting that keeps every root (path compression) keeps edges inside sets. */
  lemma SameRootsKeepEdges(E: seq<Edge>, parent: seq<int>, rank: seq<nat>, parent': seq<int>, rank': seq<nat>)
    requires EdgesWithinSets(E, parent, rank)
    requires SameRoots(parent, rank, parent', rank')
    ensures EdgesWithinSets(E, parent', rank')
  {
  }

  /** Merging two sets keeps edges inside sets. */
  lemma MergeKeepsEdges(E: seq<Edge>, parent: seq<int>, rank: seq<nat>, parent': seq<int>, rank': seq<nat>, x: int, y: int)
    requires EdgesWithinSets(E, parent, rank)
    requires MergedSets(parent, rank, parent', rank', x, y)
    ensures EdgesWithinSets(E, parent', rank')
  {
    forall e | e in E
      ensures Root(parent', rank', e.from) == Root(parent', rank', e.to)
    {
      assert Root(parent, rank, e.from) == Root(parent, rank, e.to);
    }
  }

  /** An edge between unconnected nodes keeps an edge list acyclic. */
  lemma AcyclicExtend(E: seq<Edge>, e: Edge)
    requires Acyclic(E) && !Connected(E, e.from, e.to)
    ensures Acyclic(E + [e])
  {
    var E' := E + [e];
    forall k | 0 <= k < |E'|
      ensures !Connected(E'[..k], E'[k].from, E'[k].to)
    {
      if k < |E| {
        assert E'[..k] == E[..k] && E'[k] == E[k];
      } else {
        assert E'[..k] == E;
      }
    }
  }

  /** A walk along edges whose endpoints share a set never leaves that set. */
  lemma {:induction false} PathStaysInSet(E: seq<Edge>, parent: seq<int>, rank: seq<nat>, p: seq<int>)
    requires EdgesWithinSets(E, parent, rank)
    requires IsPath(E, p) && 0 <= p[0] < |parent|
    ensures 0 <= p[|p| - 1] < |parent|
    ensures Root(parent, rank, p[|p| - 1]) == Root(parent, rank, p[0])
    decreases |p|
  {
    if |p| > 1 {
      var q := p[..|p| - 1];
      forall i | 0 <= i < |q| - 1
        ensures Adjacent(E, q[i], q[i + 1])
      {
        assert q[i] == p[i] && q[i + 1] == p[i + 1];
      }
      assert IsPath(E, q);
      PathStaysInSet(E, parent, rank, q);
      assert Adjacent(E, p[|p| - 2], p[|p| - 1]);
    }
  }

  /** Nodes in different sets are not connected by such edges. */
  lemma DifferentSetsNotConnected(E: seq<Edge>, parent: seq<int>, rank: seq<nat>, u: int, v: int)
    requires EdgesWithinSets(E, parent, rank)
    requires 0 <= u < |parent| && 0 <= v < |parent|
    requires Root(parent, rank, u) != Root(parent, rank, v)
    ensures !Connected(E, u, v)
  {
    if Connected(E, u, v) {
      var p :| IsPath(E, p) && p[0] == u && p[|p| - 1] == v;
      PathStaysInSet(E, parent, rank, p);
    }
  }

  /** Every two nodes of one set are joined by a walk along `E`: the converse
      of `EdgesWithinSets`. */
  ghost predicate SetsConnected(E: seq<Edge>, parent: seq<int>, rank: seq<nat>)
  {
    && IsForest(parent, rank)
    && forall u, v :: 0 <= u < |parent| && 0 <= v < |parent| && Root(parent, rank, u) == Root(parent, rank, v) ==>
         Connected(E, u, v)
  }

  /** A walk along `E` is a walk along `E` with one more edge. */
  lemma ConnectedGrows(E: seq<Edge>, e: Edge, u: int, v: int)
    requires Connected(E, u, v)
    ensures Connected(E + [e], u, v)
  {
    var p :| IsPath(E, p) && p[0] == u && p[|p| - 1] == v;
    forall i | 0 <= i < |p| - 1
      ensures Adjacent(E + [e], p[i], p[i + 1])
    {
      assert Adjacent(E, p[i], p[i + 1]);
      var f :| f in E && ((f.from == p[i] && f.to == p[i + 1]) || (f.from == p[i + 1] && f.to == p[i]));
      assert f in E + [e];
    }
    assert IsPath(E + [e], p);
  }

  /** Two walks that meet at `v` join into one. */
  lemma ConnectedJoin(E: seq<Edge>, u: int, v: int, w: int)
    requires Connected(E, u, v) && Connected(E, v, w)
    ensures Connected(E, u, w)
  {
    var p :| IsPath(E, p) && p[0] == u && p[|p| - 1] == v;
    var q :| IsPath(E, q) && q[0] == v && q[|q| - 1] == w;
    var r := p + q[1..];
    forall i | 0 <= i < |r| - 1
      ensures Adjacent(E, r[i], r[i + 1])
    {
      if i < |p| - 1 {
        assert r[i] == p[i] && r[i + 1] == p[i + 1];
      } else {
        assert r[i] == q[i - |p| + 1] && r[i + 1] == q[i - |p| + 2];
      }
    }
    assert IsPath(E, r);
  }

  /** Finds that keep every root keep every set connected. */
  lemma SameRootsKeepConnected(E: seq<Edge>, parent: seq<int>, rank: seq<nat>, parent': seq<int>, rank': seq<nat>)
    requires SetsConnected(E, parent, rank)
    requires SameRoots(parent, rank, parent', rank')
    ensures SetsConnected(E, parent', rank')
  {
    forall u, v | 0 <= u < |parent'| && 0 <= v < |parent'| && Root(parent', rank', u) == Root(parent', rank', v)
      ensures Connected(E, u, v)
    {
      assert Root(parent, rank, u) == Root(parent, rank, v);
    }
  }

  /** Merging the sets of `e`'s ends while keeping `e` keeps every set
      connected: a node of one old set walks to `e.from`, crosses `e` and
      walks on from `e.to`. */
  lemma MergeConnects(E: seq<Edge>, parent: seq<int>, rank: seq<nat>, parent': seq<int>, rank': seq<nat>, e: Edge)
    requires SetsConnected(E, parent, rank)
    requires MergedSets(parent, rank, parent', rank', e.from, e.to)
    ensures SetsConnected(E + [e], parent', rank')
  {
    var E' := E + [e];
    var rx, ry := Root(parent, rank, e.from), Root(parent, rank, e.to);
    assert IsPath(E', [e.from, e.to]) && IsPath(E', [e.to, e.from]) by {
      assert e in E';
    }
    assert Connected(E', e.from, e.to) && Connected(E', e.to, e.from);
    forall u, v | 0 <= u < |parent'| && 0 <= v < |parent'| && Root(parent', rank', u) == Root(parent', rank', v)
      ensures Connected(E', u, v)
    {
      var ru, rv := Root(parent, rank, u), Root(parent, rank, v);
      if ru == rv {
        ConnectedGrows(E, e, u, v);
      } else if ru == rx && rv == ry {
        ConnectedGrows(E, e, u, e.from);
        ConnectedGrows(E, e, e.to, v);
        ConnectedJoin(E', u, e.from, e.to);
        ConnectedJoin(E', u, e.to, v);
      } else {
        assert ru == ry && rv == rx;
        ConnectedGrows(E, e, u, e.to);
        ConnectedGrows(E, e, e.from, v);
        ConnectedJoin(E', u, e.to, e.from);
        ConnectedJoin(E', u, e.from, v);
      }
    }
  }

  /** A forest of singletons needs no edge to connect its sets. */
  lemma SingletonsConnected(parent: seq<int>, rank: seq<nat>)
    requires IsForest(parent, rank)
    requires forall i :: 0 <= i < |parent| ==> parent[i] == i
    ensures SetsConnected([], parent, rank)
  {
    forall u, v | 0 <= u < |parent| && 0 <= v < |parent| && Root(parent, rank, u) == Root(parent, rank, v)
      ensures Connected([], u, v)
    {
      assert IsPath([], [u]);
    }
  }

  /** Once every candidate is scanned, each one has its ends in one set, so
      the kept edges join them. */
  lemma CandidatesConnected(graph: seq<seq<int>>, n: nat, scanned: seq<Edge>, E: seq<Edge>, parent: seq<int>, rank: seq<nat>)
    requires IsSquare(graph, n)
    requires forall e :: IsCandidate(graph, n, e) ==> e in scanned
    requires EdgesWithinSets(scanned, parent, rank) && SetsConnected(E, parent, rank)
    ensures forall e :: IsCandidate(graph, n, e) ==> Connected(E, e.from, e.to)
  {
    forall e | IsCandidate(graph, n, e)
      ensures Connected(E, e.from, e.to)
    {
      assert e in scanned;
    }
  }

  /** Finds keep the kept edges and the scanned edges inside the sets, and
      every set joined by the kept edges. */
  lemma SameRootsKeepScan(mst: seq<Edge>, scanned: seq<Edge>, parent: seq<int>, rank: seq<nat>, parent': seq<int>, rank': seq<nat>)
    requires EdgesWithinSets(mst, parent, rank) && SetsConnected(mst, parent, rank) && EdgesWithinSets(scanned, parent, rank)
    requires SameRoots(parent, rank, parent', rank')
    ensures EdgesWithinSets(mst, parent', rank') && SetsConnected(mst, parent', rank') && EdgesWithinSets(scanned, parent', rank')
  {
    SameRootsKeepEdges(mst, parent, rank, parent', rank');
    SameRootsKeepEdges(scanned, parent, rank, parent', rank');
    SameRootsKeepConnected(mst, parent, rank, parent', rank');
  }

  /** Uniting the sets of `e`'s ends and keeping `e` keeps the kept edges and
      the scanned edges, `e` among them, inside the sets, and every set
      joined by the kept edges. */
  lemma MergeKeepsScan(mst: seq<Edge>, scanned: seq<Edge>, parent: seq<int>, rank: seq<nat>, parent': seq<int>, rank': seq<nat>, e: Edge)
    requires EdgesWithinSets(mst, parent, rank) && SetsConnected(mst, parent, rank) && EdgesWithinSets(scanned, parent, rank)
    requires MergedSets(parent, rank, parent', rank', e.from, e.to)
    ensures EdgesWithinSets(mst + [e], parent', rank') && SetsConnected(mst + [e], parent', rank')
    ensures EdgesWithinSets(scanned + [e], parent', rank')
  {
    MergeKeepsEdges(mst, parent, rank, parent', rank', e.from, e.to);
    MergeKeepsEdges(scanned, parent, rank, parent', rank', e.from, e.to);
    MergeConnects(mst, parent, rank, parent', rank', e);
    assert Root(parent', rank', e.from) == Root(parent', rank', e.to);
  }

  /** One step of the main loop: `e` is kept, and its sets united, exactly
      when its endpoints lie in different sets. Afterwards its ends share a
      set, and each set is still joined by the kept edges. */
  method KeepIfNoCycle(uf: DisjointSets, mst: seq<Edge>, e: Edge, ghost scanned: seq<Edge>) returns (mst': seq<Edge>)
    requires uf.Valid() && EdgesWithinSets(mst, uf.parent, uf.rank) && Acyclic(mst)
    requires SetsConnected(mst, uf.parent, uf.rank) && EdgesWithinSets(scanned, uf.parent, uf.rank)
    requires 0 <= e.from < |uf.parent| && 0 <= e.to < |uf.parent|
    modifies uf
    ensures uf.Valid() && |uf.parent| == old(|uf.parent|)
    ensures mst' == if Root(old(uf.parent), old(uf.rank), e.from) != Root(old(uf.parent), old(uf.rank), e.to)
                    then mst + [e] else mst
    ensures EdgesWithinSets(mst', uf.parent, uf.rank) && Acyclic(mst')
    ensures SetsConnected(mst', uf.parent, uf.rank) && EdgesWithinSets(scanned + [e], uf.parent, uf.rank)
    ensures |Roots(uf.parent)| + |mst'| == |old(Roots(uf.parent))| + |mst|
  {
    ghost var p0, r0 := uf.parent, uf.rank;
    var rootFrom := uf.Find(e.from);
    ghost var p1, r1 := uf.parent, uf.rank;
    var rootTo := uf.Find(e.to);
    SameRootsTransitive(p0, r0, p1, r1, uf.parent, uf.rank);
    SameRootsKeepScan(mst, scanned, p0, r0, uf.parent, uf.rank);
    assert rootFrom == Root(p0, r0, e.from) && rootTo == Root(p0, r0, e.to);
    if rootFrom != rootTo {
      DifferentSetsNotConnected(mst, uf.parent, uf.rank, e.from, e.to);
      AcyclicExtend(mst, e);
      ghost var p2, r2 := uf.parent, uf.rank;
      uf.Unite(e.from, e.to);
      MergeKeepsScan(mst, scanned, p2, r2, uf.parent, uf.rank, e);
      mst' := mst + [e];
    } else {
      mst' := mst;
    }
  }

  /** The edges kept so far, from the first `k` of `sorted`: candidates, in
      non-decreasing weight order, none heavier than an edge still to come. */
  ghost predicate KeptSoFar(graph: seq<seq<int>>, n: nat, sorted: seq<Edge>, k: int, mst: seq<Edge>)
    requires IsSquare(graph, n) && 0 <= k <= |sorted|
  {
    && (forall e :: e in mst ==> IsCandidate(graph, n, e))
    && SortedByWeight(mst)
    && (forall i, j :: 0 <= i < |mst| && k <= j < |sorted| ==> mst[i].weight <= sorted[j].weight)
  }

  /** Keeping or skipping the next sorted candidate preserves `KeptSoFar`. */
  lemma KeptSoFarStep(graph: seq<seq<int>>, n: nat, sorted: seq<Edge>, k: int, mst: seq<Edge>, mst': seq<Edge>)
    requires IsSquare(graph, n) && 0 <= k < |sorted| && SortedByWeight(sorted)
    requires KeptSoFar(graph, n, sorted, k, mst) && IsCandidate(graph, n, sorted[k])
    requires mst' == mst + [sorted[k]] || mst' == mst
    ensures KeptSoFar(graph, n, sorted, k + 1, mst')
  {
  }

  /** The sorted edges are exactly the candidates. */
  lemma SortedCandidates(graph: seq<seq<int>>, n: nat, edges: seq<Edge>, sorted: seq<Edge>)
    requires IsSquare(graph, n)
    requires forall e :: e in edges <==> IsCandidate(graph, n, e)
    requires multiset(sorted) == multiset(edges)
    ensures forall e :: IsCandidate(graph, n, e) ==> e in sorted
    ensures forall j :: 0 <= j < |sorted| ==> IsCandidate(graph, n, sorted[j])
  {
    forall e
      ensures IsCandidate(graph, n, e) <==> e in sorted
    {
      assert e in multiset(edges) <==> e in multiset(sorted);
    }
  }

  /** What the main loop keeps after scanning `sorted[..k]`: the kept edges
      are candidates in weight order, acyclic, inside the sets and joining
      each set, and every scanned edge lies inside one set. */
  ghost predicate Scanned(graph: seq<seq<int>>, n: nat, sorted: seq<Edge>, k: int, mst: seq<Edge>,
                          parent: seq<int>, rank: seq<nat>)
    requires IsSquare(graph, n) && 0 <= k <= |sorted|
  {
    && KeptSoFar(graph, n, sorted, k, mst)
    && EdgesWithinSets(mst, parent, rank) && Acyclic(mst)
    && SetsConnected(mst, parent, rank) && EdgesWithinSets(sorted[..k], parent, rank)
  }

  /** The loop body: scans `sorted[k]`, keeping it when it closes no cycle. */
  method ScanNext(uf: DisjointSets, graph: seq<seq<int>>, n: nat, sorted: seq<Edge>, k: nat, mst: seq<Edge>)
    returns (mst': seq<Edge>)
    requires IsSquare(graph, n) && k < |sorted| && SortedByWeight(sorted)
    requires forall j :: 0 <= j < |sorted| ==> IsCandidate(graph, n, sorted[j])
    requires uf.Valid() && |uf.parent| == n
    requires Scanned(graph, n, sorted, k, mst, uf.parent, uf.rank)
    modifies uf
    ensures uf.Valid() && |uf.parent| == n && IsCandidate(graph, n, sorted[k])
    ensures mst' == if Root(old(uf.parent), old(uf.rank), sorted[k].from) != Root(old(uf.parent), old(uf.rank), sorted[k].to)
                    then mst + [sorted[k]] else mst
    ensures Scanned(graph, n, sorted, k + 1, mst', uf.parent, uf.rank)
    ensures |Roots(uf.parent)| + |mst'| == |old(Roots(uf.parent))| + |mst|
  {
    var e := sorted[k];
    mst' := KeepIfNoCycle(uf, mst, e, sorted[..k]);
    assert sorted[..k + 1] == sorted[..k] + [e];
    KeptSoFarStep(graph, n, sorted, k, mst, mst');
  }

  /** `kruskalMST`: the edges kept are candidates, come out in non-decreasing
      weight order, form no cycle, number at most n - 1, and span the graph:
      the two ends of every candidate edge are joined by a walk along them. */
  method KruskalMst(n: nat, graph: seq<seq<int>>) returns (mst: seq<Edge>)
    requires IsSquare(graph, n)
    ensures forall e :: e in mst ==> IsCandidate(graph, n, e)
    ensures SortedByWeight(mst)
    ensures Acyclic(mst)
    ensures forall e :: IsCandidate(graph, n, e) ==> Connected(mst, e.from, e.to)
    ensures n == 0 ==> mst == []
    ensures n > 0 ==> |mst| <= n - 1
  {
    var edges := CandidateEdges(n, graph);
    var sorted := SortByWeight(edges);
    SortedCandidates(graph, n, edges, sorted);
    var uf := new DisjointSets(n);
    mst := [];
    SingletonsConnected(uf.parent, uf.rank);
    var k := 0;
    while k < |sorted|
      invariant 0 <= k <= |sorted|
      invariant uf.Valid() && |uf.parent| == n
      invariant Scanned(graph, n, sorted, k, mst, uf.parent, uf.rank)
      invariant |Roots(uf.parent)| + |mst| == n
    {
      mst := ScanNext(uf, graph, n, sorted, k, mst);
      k := k + 1;
    }
    assert sorted[..k] == sorted;
    CandidatesConnected(graph, n, sorted, mst, uf.parent, uf.rank);
    if n > 0 {
      var r := uf.Find(0);
      assert r in Roots(uf.parent);
    }
  }
}
