/** The city with the fewest neighbours within a distance threshold: an
    adjacency matrix built from weighted undirected edges, all-pairs
    shortest distances by Floyd–Warshall relaxed in place, then a count of
    the cities each city reaches within the threshold. */
module FloydWarshall {
  import opened Common

  /** An undirected edge between `u` and `v` of length `weight`. */
  datatype Edge = Edge(u: int, v: int, weight: int)

  /** Every edge joins two of the `n` cities with a length of at least 0. */
  predicate ValidEdges(n: nat, edges: seq<Edge>)
  {
    forall e :: e in edges ==> 0 <= e.u < n && 0 <= e.v < n && e.weight >= 0
  }

  /** Sum of two distances; unreachable absorbs. */
  function Add(a: Bound, b: Bound): (s: Bound)
    ensures s.Finite? <==> a.Finite? && b.Finite?
    ensures s.Finite? ==> s.value == a.value + b.value
  {
    if a.Finite? && b.Finite? then Finite(a.value + b.value) else Infinity
  }

  /** The smaller of two distances, the first on a tie. */
  function MinBound(a: Bound, b: Bound): (m: Bound)
    ensures m.AtMost(a) && m.AtMost(b) && (m == a || m == b)
  {
    if a.AtMost(b) then a else b
  }

  /** The entry for `(i, j)` after the edges are written in order: the
      last edge joining `i` and `j` in either direction, otherwise 0 on the
      diagonal and unreachable elsewhere. */
  function Initial(edges: seq<Edge>, i: int, j: int): Bound
  {
    if |edges| == 0 then
      if i == j then Finite(0) else Infinity
    else
      var e := edges[|edges| - 1];
      if (e.u == i && e.v == j) || (e.v == i && e.u == j) then Finite(e.weight)
      else Initial(edges[..|edges| - 1], i, j)
  }

  /** Edge `m` joins `i` and `j`. */
  predicate Joins(e: Edge, i: int, j: int)
  {
    (e.u == i && e.v == j) || (e.v == i && e.u == j)
  }

  /** A later edge for the same pair overwrites an earlier one: the entry is
      the length of the last edge joining the pair, and with no such edge it
      is 0 on the diagonal and unreachable elsewhere. */
  lemma {:induction false} LastEdgeWins(edges: seq<Edge>, i: int, j: int, m: int)
    requires -1 <= m < |edges| && (m >= 0 ==> Joins(edges[m], i, j))
    requires forall t :: m < t < |edges| ==> !Joins(edges[t], i, j)
    ensures m >= 0 ==> Initial(edges, i, j) == Finite(edges[m].weight)
    ensures m == -1 ==> Initial(edges, i, j) == if i == j then Finite(0) else Infinity
  {
    if |edges| > 0 && m < |edges| - 1 {
      var init := edges[..|edges| - 1];
      assert forall t :: m < t < |init| ==> init[t] == edges[t];
      LastEdgeWins(init, i, j, m);
    }
  }

  /** The initial matrix is symmetric. */
  lemma {:induction false} InitialSymmetric(edges: seq<Edge>, i: int, j: int)
    ensures Initial(edges, i, j) == Initial(edges, j, i)
  {
    if |edges| > 0 {
      InitialSymmetric(edges[..|edges| - 1], i, j);
    }
  }

  /** The initial matrix of `n` cities as a value. */
  function InitialMatrix(n: nat, edges: seq<Edge>): (m: seq<seq<Bound>>)
    ensures IsSquare(m, n)
  {
    seq(n, i => seq(n, j => Initial(edges, i, j)))
  }

  /** Every finite entry is at least 0. */
  predicate NonNegative(m: seq<seq<Bound>>, n: nat)
    requires IsSquare(m, n)
  {
    forall i, j :: 0 <= i < n && 0 <= j < n && m[i][j].Finite? ==> m[i][j].value >= 0
  }

  lemma {:induction false} InitialNonNegative(edges: seq<Edge>, n: nat, i: int, j: int)
    requires ValidEdges(n, edges)
    ensures Initial(edges, i, j).Finite? ==> Initial(edges, i, j).value >= 0
  {
    if |edges| > 0 {
      assert edges[|edges| - 1] in edges;
      InitialNonNegative(edges[..|edges| - 1], n, i, j);
    }
  }

  /** The length of the shortest route from `i` to `j` over the matrix `m`
      whose intermediate cities are all below `k`: the Floyd–Warshall
      recurrence. */
  function Shortest(m: seq<seq<Bound>>, n: nat, k: nat, i: int, j: int): Bound
    requires IsSquare(m, n) && k <= n && 0 <= i < n && 0 <= j < n
  {
    if k == 0 then m[i][j]
    else MinBound(Shortest(m, n, k - 1, i, j),
                  Add(Shortest(m, n, k - 1, i, k - 1), Shortest(m, n, k - 1, k - 1, j)))
  }

  /** A walk of at least one step from `i` to `j` through cities of the
      matrix, all intermediate ones below `k`. */
  predicate IsWalk(n: nat, w: seq<int>, i: int, j: int, k: int)
  {
    && |w| >= 2 && w[0] == i && w[|w| - 1] == j
    && (forall t :: 0 <= t < |w| ==> 0 <= w[t] < n)
    && (forall t :: 0 < t < |w| - 1 ==> w[t] < k)
  }

  /** The summed matrix entries along a walk. */
  function WalkLength(m: seq<seq<Bound>>, n: nat, w: seq<int>): Bound
    requires IsSquare(m, n) && |w| >= 2 && forall t :: 0 <= t < |w| ==> 0 <= w[t] < n
    decreases |w|
  {
    if |w| == 2 then m[w[0]][w[1]]
    else Add(WalkLength(m, n, w[..|w| - 1]), m[w[|w| - 2]][w[|w| - 1]])
  }

  /** Joining two walks at a shared city adds their lengths. */
  lemma {:induction false} WalkLengthJoin(m: seq<seq<Bound>>, n: nat, p: seq<int>, q: seq<int>)
    requires IsSquare(m, n) && |p| >= 2 && |q| >= 2 && p[|p| - 1] == q[0]
    requires forall t :: 0 <= t < |p| ==> 0 <= p[t] < n
    requires forall t :: 0 <= t < |q| ==> 0 <= q[t] < n
    ensures forall t :: 0 <= t < |p + q[1..]| ==> 0 <= (p + q[1..])[t] < n
    ensures WalkLength(m, n, p + q[1..]) == Add(WalkLength(m, n, p), WalkLength(m, n, q))
    decreases |q|
  {
    var w := p + q[1..];
    if |q| == 2 {
      assert w[..|w| - 1] == p;
    } else {
      var q' := q[..|q| - 1];
      WalkLengthJoin(m, n, p, q');
      assert w[..|w| - 1] == p + q'[1..];
    }
  }

  /** Two walks avoiding cities from `k` on, joined at `k`, make a walk
      whose intermediate cities are at most `k`. */
  lemma JoinThrough(m: seq<seq<Bound>>, n: nat, k: nat, i: int, j: int, p: seq<int>, q: seq<int>)
    requires IsSquare(m, n) && IsWalk(n, p, i, k, k) && IsWalk(n, q, k, j, k)
    ensures IsWalk(n, p + q[1..], i, j, k + 1)
    ensures WalkLength(m, n, p + q[1..]) == Add(WalkLength(m, n, p), WalkLength(m, n, q))
  {
    WalkLengthJoin(m, n, p, q);
    var w := p + q[1..];
    forall t | 0 < t < |w| - 1
      ensures w[t] < k + 1
    {
      if t >= |p| {
        assert w[t] == q[t - |p| + 1];
      }
    }
  }

  /** Adding never shortens when both sides are at most the others. */
  lemma AddMonotone(a: Bound, b: Bound, c: Bound, d: Bound)
    requires a.AtMost(c) && b.AtMost(d)
    ensures Add(a, b).AtMost(Add(c, d))
  {
  }

  /** With non-negative lengths, the shortest distances are non-negative. */
  lemma {:induction false} ShortestNonNegative(m: seq<seq<Bound>>, n: nat, k: nat, i: int, j: int)
    requires IsSquare(m, n) && NonNegative(m, n) && k <= n && 0 <= i < n && 0 <= j < n
    ensures Shortest(m, n, k, i, j).Finite? ==> Shortest(m, n, k, i, j).value >= 0
  {
    if k > 0 {
      ShortestNonNegative(m, n, k - 1, i, j);
      ShortestNonNegative(m, n, k - 1, i, k - 1);
      ShortestNonNegative(m, n, k - 1, k - 1, j);
    }
  }

  /** Allowing city `k` as an intermediate does not change distances to or
      from `k` itself: the in-place relaxation may read updated entries. */
  lemma StableThroughK(m: seq<seq<Bound>>, n: nat, k: nat, i: int, j: int)
    requires IsSquare(m, n) && NonNegative(m, n) && k < n && 0 <= i < n && 0 <= j < n
    ensures Shortest(m, n, k + 1, i, k) == Shortest(m, n, k, i, k)
    ensures Shortest(m, n, k + 1, k, j) == Shortest(m, n, k, k, j)
  {
    ShortestNonNegative(m, n, k, k, k);
  }

  /** Allowing more intermediate cities never lengthens a distance. */
  lemma {:induction false} ShortestDecreases(m: seq<seq<Bound>>, n: nat, k: nat, k': nat, i: int, j: int)
    requires IsSquare(m, n) && k <= k' <= n && 0 <= i < n && 0 <= j < n
    ensures Shortest(m, n, k', i, j).AtMost(Shortest(m, n, k, i, j))
    decreases k' - k
  {
    if k < k' {
      ShortestDecreases(m, n, k, k' - 1, i, j);
    }
  }

  /** Every finite distance of the recurrence is the length of a walk whose
      intermediate cities are below `k`. */
  lemma {:induction false} ShortestIsAchieved(m: seq<seq<Bound>>, n: nat, k: nat, i: int, j: int)
    requires IsSquare(m, n) && k <= n && 0 <= i < n && 0 <= j < n
    ensures Shortest(m, n, k, i, j).Finite? ==>
              exists w :: IsWalk(n, w, i, j, k) && WalkLength(m, n, w) == Shortest(m, n, k, i, j)
  {
    var d := Shortest(m, n, k, i, j);
    if k == 0 {
      assert IsWalk(n, [i, j], i, j, k) && WalkLength(m, n, [i, j]) == d;
    } else if d.Finite? {
      if d == Shortest(m, n, k - 1, i, j) {
        ShortestIsAchieved(m, n, k - 1, i, j);
        var w :| IsWalk(n, w, i, j, k - 1) && WalkLength(m, n, w) == d;
        assert IsWalk(n, w, i, j, k);
      } else {
        ShortestIsAchieved(m, n, k - 1, i, k - 1);
        ShortestIsAchieved(m, n, k - 1, k - 1, j);
        var p :| IsWalk(n, p, i, k - 1, k - 1) && WalkLength(m, n, p) == Shortest(m, n, k - 1, i, k - 1);
        var q :| IsWalk(n, q, k - 1, j, k - 1) && WalkLength(m, n, q) == Shortest(m, n, k - 1, k - 1, j);
        JoinThrough(m, n, k - 1, i, j, p, q);
        assert WalkLength(m, n, p + q[1..]) == d;
      }
    }
  }

  /** Cutting a walk at one of its intermediate cities gives two walks
      that join back into it. */
  lemma SplitWalk(n: nat, w: seq<int>, i: int, j: int, k: int, t: int) returns (p: seq<int>, q: seq<int>)
    requires IsWalk(n, w, i, j, k) && 0 < t < |w| - 1
    ensures IsWalk(n, p, i, w[t], k) && IsWalk(n, q, w[t], j, k)
    ensures |p| < |w| && |q| < |w| && p + q[1..] == w
  {
    p, q := w[..t + 1], w[t..];
    assert p + q[1..] == w;
  }

  /** No walk whose intermediate cities are below `k` is shorter than the
      distance of the recurrence, when no matrix entry is negative. */
  lemma {:induction false} ShortestIsMinimal(m: seq<seq<Bound>>, n: nat, k: nat, i: int, j: int, w: seq<int>)
    requires IsSquare(m, n) && NonNegative(m, n) && k <= n && IsWalk(n, w, i, j, k)
    ensures Shortest(m, n, k, i, j).AtMost(WalkLength(m, n, w))
    decreases k, |w|
  {
    if k == 0 {
      assert w == [i, j];
    } else if t :| 0 < t < |w| - 1 && w[t] == k - 1 {
      var p, q := SplitWalk(n, w, i, j, k, t);
      ShortestIsMinimal(m, n, k, i, k - 1, p);
      ShortestIsMinimal(m, n, k, k - 1, j, q);
      WalkLengthJoin(m, n, p, q);
      ThroughLast(m, n, k, i, j, WalkLength(m, n, p), WalkLength(m, n, q));
    } else {
      assert IsWalk(n, w, i, j, k - 1);
      ShortestIsMinimal(m, n, k - 1, i, j, w);
    }
  }

  /** Bounds on the distances to and from city `k - 1` bound the distance
      through it. */
  lemma ThroughLast(m: seq<seq<Bound>>, n: nat, k: nat, i: int, j: int, a: Bound, b: Bound)
    requires IsSquare(m, n) && NonNegative(m, n) && 0 < k <= n && 0 <= i < n && 0 <= j < n
    requires Shortest(m, n, k, i, k - 1).AtMost(a) && Shortest(m, n, k, k - 1, j).AtMost(b)
    ensures Shortest(m, n, k, i, j).AtMost(Add(a, b))
  {
    StableThroughK(m, n, k - 1, i, j);
    AddMonotone(Shortest(m, n, k, i, k - 1), Shortest(m, n, k, k - 1, j), a, b);
  }

  /** The contents of a matrix held in an array. */
  ghost function Contents(dist: array2<Bound>): (m: seq<seq<Bound>>)
    reads dist
    ensures |m| == dist.Length0 && forall i :: 0 <= i < |m| ==> |m[i]| == dist.Length1
    ensures forall i, j :: 0 <= i < dist.Length0 && 0 <= j < dist.Length1 ==> m[i][j] == dist[i, j]
  {
    seq(dist.Length0, i requires 0 <= i < dist.Length0 reads dist =>
      seq(dist.Length1, j requires 0 <= j < dist.Length1 reads dist => dist[i, j]))
  }

  /** Fills the `n`-by-`n` matrix: unreachable everywhere, 0 on the
      diagonal, then each edge in both directions. */
  method InitializeDistances(n: nat, edges: seq<Edge>) returns (dist: array2<Bound>)
    requires ValidEdges(n, edges)
    ensures fresh(dist) && dist.Length0 == n && dist.Length1 == n
    ensures forall i, j :: 0 <= i < n && 0 <= j < n ==> dist[i, j] == Initial(edges, i, j)
  {
    dist := new Bound[n, n]((_, _) => Infinity);
    for i := 0 to n
      invariant forall a, b :: 0 <= a < n && 0 <= b < n ==> dist[a, b] == if a == b && a < i then Finite(0) else Infinity
    {
      dist[i, i] := Finite(0);
    }
    for e := 0 to |edges|
      invariant forall a, b :: 0 <= a < n && 0 <= b < n ==> dist[a, b] == Initial(edges[..e], a, b)
    {
      assert edges[e] in edges;
      assert edges[..e + 1][..e] == edges[..e];
      var u, v, weight := edges[e].u, edges[e].v, edges[e].weight;
      dist[u, v] := Finite(weight);
      dist[v, u] := Finite(weight);
    }
    assert edges[..|edges|] == edges;
  }

  /** During round `k`, the cells before `(i, j)` in row-major order allow
      city `k` as an intermediate and the others do not yet. */
  ghost predicate Round(dist: array2<Bound>, m: seq<seq<Bound>>, n: nat, k: nat, i: int, j: int)
    reads dist
    requires IsSquare(m, n) && k < n
  {
    && dist.Length0 == n && dist.Length1 == n
    && forall a, b :: 0 <= a < n && 0 <= b < n ==>
         dist[a, b] == if a < i || (a == i && b < j) then Shortest(m, n, k + 1, a, b) else Shortest(m, n, k, a, b)
  }

  /** Relaxes the cell `(i, j)` through city `k`, unless either half is
      unreachable. */
  method RelaxCell(dist: array2<Bound>, ghost m: seq<seq<Bound>>, n: nat, k: nat, i: int, j: int)
    requires IsSquare(m, n) && NonNegative(m, n) && k < n && 0 <= i < n && 0 <= j < n
    requires Round(dist, m, n, k, i, j)
    modifies dist
    ensures Round(dist, m, n, k, i, j + 1)
  {
    StableThroughK(m, n, k, i, j);
    if dist[i, k].Finite? && dist[k, j].Finite? && dist[i, j].Above(dist[i, k].value + dist[k, j].value) {
      dist[i, j] := Finite(dist[i, k].value + dist[k, j].value);
    }
  }

  /** Floyd–Warshall in place: afterwards every entry is the shortest
      distance with every city allowed as an intermediate. */
  method AllPairsShortest(dist: array2<Bound>, n: nat)
    requires dist.Length0 == n && dist.Length1 == n && NonNegative(Contents(dist), n)
    modifies dist
    ensures forall i, j :: 0 <= i < n && 0 <= j < n ==> dist[i, j] == Shortest(old(Contents(dist)), n, n, i, j)
  {
    ghost var m := Contents(dist);
    for k := 0 to n
      invariant forall a, b :: 0 <= a < n && 0 <= b < n ==> dist[a, b] == Shortest(m, n, k, a, b)
    {
      for i := 0 to n
        invariant Round(dist, m, n, k, i, 0)
      {
        for j := 0 to n
          invariant Round(dist, m, n, k, i, j)
        {
          RelaxCell(dist, m, n, k, i, j);
        }
      }
    }
  }

  /** A distance within the threshold; an unreachable city never is. */
  predicate Within(d: Bound, threshold: int)
  {
    d.Finite? && d.value <= threshold
  }

  /** The other cities that city `i` reaches within the threshold. */
  ghost function Reachable(d: seq<seq<Bound>>, n: nat, i: int, threshold: int): set<int>
    requires IsSquare(d, n) && 0 <= i < n
  {
    set j | 0 <= j < n && j != i && Within(d[i][j], threshold)
  }

  /** Counts the other cities within the threshold of city `i`. */
  method CountReachable(dist: array2<Bound>, n: nat, i: int, threshold: int) returns (count: int)
    requires dist.Length0 == n && dist.Length1 == n && 0 <= i < n
    ensures count == |Reachable(Contents(dist), n, i, threshold)|
    ensures count < n
  {
    ghost var d := Contents(dist);
    count := 0;
    for j := 0 to n
      invariant count == |set b | 0 <= b < j && b != i && Within(d[i][b], threshold)|
      invariant count <= j && (i < j ==> count < j)
    {
      ghost var before := set b | 0 <= b < j && b != i && Within(d[i][b], threshold);
      if i != j && Within(dist[i, j], threshold) {
        assert (set b | 0 <= b < j + 1 && b != i && Within(d[i][b], threshold)) == before + {j};
        count := count + 1;
      } else {
        assert (set b | 0 <= b < j + 1 && b != i && Within(d[i][b], threshold)) == before;
      }
    }
    assert (set b | 0 <= b < n && b != i && Within(d[i][b], threshold)) == Reachable(d, n, i, threshold);
  }

  /** Two square matrices with the same entries are equal. */
  lemma SameMatrix(a: seq<seq<Bound>>, b: seq<seq<Bound>>, n: nat)
    requires IsSquare(a, n) && IsSquare(b, n)
    requires forall i, j :: 0 <= i < n && 0 <= j < n ==> a[i][j] == b[i][j]
    ensures a == b
  {
    forall i | 0 <= i < n
      ensures a[i] == b[i]
    {
    }
  }

  /** The shortest distances between the `n` cities joined by `edges`. */
  ghost function Distances(n: nat, edges: seq<Edge>): (d: seq<seq<Bound>>)
    ensures IsSquare(d, n)
  {
    seq(n, i requires 0 <= i < n => seq(n, j requires 0 <= j < n => Shortest(InitialMatrix(n, edges), n, n, i, j)))
  }

  /** The number of other cities within the threshold of city `c`. */
  ghost function Neighbours(n: nat, edges: seq<Edge>, threshold: int, c: int): nat
    requires 0 <= c < n
  {
    |Reachable(Distances(n, edges), n, c, threshold)|
  }

  /** The city whose row of `dist` reaches the fewest others within the
      threshold, the largest such city on a tie; -1 when `n` is 0. */
  method SelectCity(dist: array2<Bound>, n: nat, threshold: int) returns (city: int)
    requires dist.Length0 == n && dist.Length1 == n
    ensures n == 0 ==> city == -1
    ensures n > 0 ==> 0 <= city < n
    ensures n > 0 ==> forall c :: 0 <= c < n ==>
              |Reachable(Contents(dist), n, city, threshold)| <= |Reachable(Contents(dist), n, c, threshold)|
    ensures n > 0 ==> forall c :: city < c < n ==>
              |Reachable(Contents(dist), n, city, threshold)| < |Reachable(Contents(dist), n, c, threshold)|
  {
    ghost var d := Contents(dist);
    var minReachableCities := n;
    city := -1;
    for i := 0 to n
      invariant forall c :: 0 <= c < i ==> minReachableCities <= |Reachable(d, n, c, threshold)|
      invariant i == 0 ==> city == -1 && minReachableCities == n
      invariant i > 0 ==> 0 <= city < i && minReachableCities == |Reachable(d, n, city, threshold)|
      invariant i > 0 ==> forall c :: city < c < i ==> minReachableCities < |Reachable(d, n, c, threshold)|
    {
      var reachableCities := CountReachable(dist, n, i, threshold);
      if reachableCities < minReachableCities {
        minReachableCities := reachableCities;
        city := i;
      } else if reachableCities == minReachableCities {
        city := if city > i then city else i;
      }
    }
  }

  /** The city reaching the fewest others within the threshold, the
      largest such city on a tie; -1 when there are no cities. */
  method FindTheCity(n: nat, edges: seq<Edge>, threshold: int) returns (city: int)
    requires ValidEdges(n, edges)
    ensures n == 0 ==> city == -1
    ensures n > 0 ==> 0 <= city < n
    ensures n > 0 ==> forall c :: 0 <= c < n ==> Neighbours(n, edges, threshold, city) <= Neighbours(n, edges, threshold, c)
    ensures n > 0 ==> forall c :: city < c < n ==> Neighbours(n, edges, threshold, city) < Neighbours(n, edges, threshold, c)
  {
    var dist := InitializeDistances(n, edges);
    SameMatrix(Contents(dist), InitialMatrix(n, edges), n);
    forall i, j | 0 <= i < n && 0 <= j < n
      ensures InitialMatrix(n, edges)[i][j].Finite? ==> InitialMatrix(n, edges)[i][j].value >= 0
    {
      InitialNonNegative(edges, n, i, j);
    }
    AllPairsShortest(dist, n);
    SameMatrix(Contents(dist), Distances(n, edges), n);
    city := SelectCity(dist, n, threshold);
    assert forall c :: 0 <= c < n ==> Neighbours(n, edges, threshold, c) == |Reachable(Contents(dist), n, c, threshold)|;
  }
}
