/** Brute-force travelling salesman search (`tsp` in
    Integrity_Activity_2/main.cpp): a backtracking search that extends the
    current path by every unvisited node, records the cheapest closed cycle
    in `minCost`/`optimalRoute`, and undoes each choice afterwards. */
module BruteForceTsp {
  import opened Common

  predicate NodesIn(path: seq<int>, n: nat)
  {
    forall k :: 0 <= k < |path| ==> 0 <= path[k] < n
  }

  predicate Distinct(path: seq<int>)
  {
    forall a, b :: 0 <= a < b < |path| ==> path[a] != path[b]
  }

  /** Sum of the weights between consecutive nodes of `path`. */
  function PathCost(graph: seq<seq<int>>, n: nat, path: seq<int>): int
    requires IsSquare(graph, n) && NodesIn(path, n)
  {
    if |path| <= 1 then 0
    else PathCost(graph, n, path[..|path| - 1]) + graph[path[|path| - 2]][path[|path| - 1]]
  }

  /** A route: all n nodes, each once, beginning at `start`. */
  predicate IsRoute(route: seq<int>, n: nat, start: int)
  {
    |route| == n && n >= 1 && route[0] == start && NodesIn(route, n) && Distinct(route)
  }

  /** Cost of the closed cycle: the route and the edge back to its first node. */
  function CycleCost(graph: seq<seq<int>>, n: nat, route: seq<int>): int
    requires IsSquare(graph, n) && NodesIn(route, n) && |route| >= 1
  {
    PathCost(graph, n, route) + graph[route[|route| - 1]][route[0]]
  }

  /** `best` is no worse than the cycle cost of any route that begins with `prefix`. */
  ghost predicate Covers(graph: seq<seq<int>>, n: nat, start: int, prefix: seq<int>, best: Bound)
    requires IsSquare(graph, n) && |prefix| <= n
  {
    forall route :: IsRoute(route, n, start) && route[..|prefix|] == prefix ==>
      best.Finite? && best.value <= CycleCost(graph, n, route)
  }

  /** `path` is a repetition-free path from `start` and `visited` marks
      exactly its nodes. */
  ghost predicate ValidPath(visited: seq<bool>, path: seq<int>, n: nat, start: int)
  {
    && |visited| == n && 1 <= |path| <= n && path[0] == start
    && NodesIn(path, n) && Distinct(path)
    && forall j :: 0 <= j < n ==> (visited[j] <==> j in path)
  }

  /** Visiting an unvisited node keeps the path valid and adds one edge to its cost. */
  lemma PushNode(graph: seq<seq<int>>, visited: seq<bool>, path: seq<int>, n: nat, start: int, i: int)
    requires IsSquare(graph, n) && ValidPath(visited, path, n, start)
    requires |path| < n && 0 <= i < n && !visited[i]
    ensures ValidPath(visited[i := true], path + [i], n, start)
    ensures (path + [i])[..|path|] == path
    ensures PathCost(graph, n, path + [i]) == PathCost(graph, n, path) + graph[path[|path| - 1]][i]
  {
    assert (path + [i])[..|path|] == path;
  }

  /** `best` is no worse than the cycle cost of any route that continues
      `prefix` with `i`. */
  ghost predicate CoversChoice(graph: seq<seq<int>>, n: nat, start: int, prefix: seq<int>, i: int, best: Bound)
    requires IsSquare(graph, n) && |prefix| < n
  {
    forall route :: IsRoute(route, n, start) && route[..|prefix|] == prefix && route[|prefix|] == i ==>
      best.Finite? && best.value <= CycleCost(graph, n, route)
  }

  /** The routes continuing `prefix` with `i` are those beginning with `prefix + [i]`. */
  lemma ChoiceCovered(graph: seq<seq<int>>, n: nat, start: int, prefix: seq<int>, i: int, best: Bound)
    requires IsSquare(graph, n) && |prefix| < n
    requires Covers(graph, n, start, prefix + [i], best)
    ensures CoversChoice(graph, n, start, prefix, i, best)
  {
    forall route | IsRoute(route, n, start) && route[..|prefix|] == prefix && route[|prefix|] == i
      ensures best.Finite? && best.value <= CycleCost(graph, n, route)
    {
      assert route[..|prefix| + 1] == prefix + [i];
    }
  }

  /** A route never returns to a node already on its prefix. */
  lemma NextNotOnPrefix(route: seq<int>, prefix: seq<int>)
    requires Distinct(route) && |prefix| < |route| && route[..|prefix|] == prefix
    ensures route[|prefix|] !in prefix
  {
    forall m | 0 <= m < |prefix|
      ensures prefix[m] != route[|prefix|]
    {
      assert prefix[m] == route[m];
    }
  }

  /** The nodes k..n-1 other than `start`, in increasing order. */
  function OthersFrom(k: nat, n: nat, start: int): (s: seq<int>)
    requires k <= n
    ensures forall m :: 0 <= m < |s| ==> k <= s[m] < n && s[m] != start
    ensures forall a, b :: 0 <= a < b < |s| ==> s[a] < s[b]
    ensures |s| == n - k - (if k <= start < n then 1 else 0)
    decreases n - k
  {
    if k == n then []
    else if k == start then OthersFrom(k + 1, n, start)
    else [k] + OthersFrom(k + 1, n, start)
  }

  /** Some route exists whenever there is a node to start from. */
  lemma RouteExists(n: nat, start: int) returns (route: seq<int>)
    requires 0 <= start < n
    ensures IsRoute(route, n, start) && route[..1] == [start]
  {
    var others := OthersFrom(0, n, start);
    route := [start] + others;
    forall a, b | 0 <= a < b < |route|
      ensures route[a] != route[b]
    {
      if a > 0 {
        assert route[a] == others[a - 1] && route[b] == others[b - 1];
      }
    }
  }

  /** Once a cost is recorded, the recorded route is a route of exactly
      that cycle cost. */
  ghost predicate BestRecorded(graph: seq<seq<int>>, n: nat, start: int, best: Bound, route: seq<int>)
    requires IsSquare(graph, n)
  {
    best.Finite? ==> IsRoute(route, n, start) && best.value == CycleCost(graph, n, route)
  }

  /** The search state: the globals `minTSPCost` and `optimalRoute`, and the
      `visited` flags and `currentPath` shared by reference between calls. */
  class TspSearch {
    var minCost: Bound
    var optimalRoute: seq<int>
    var visited: seq<bool>
    var currentPath: seq<int>

    /** The state `main` prepares: nothing found yet, only `start` visited. */
    constructor (n: nat, start: int)
      requires 0 <= start < n
      ensures minCost == Infinity && optimalRoute == []
      ensures |visited| == n && forall j :: 0 <= j < n ==> visited[j] == (j == start)
      ensures currentPath == [start]
    {
      minCost := Infinity;
      optimalRoute := [];
      visited := seq(n, j => j == start);
      currentPath := [start];
    }

    ghost predicate PathState(n: nat, start: int)
      reads this`visited, this`currentPath
    {
      ValidPath(visited, currentPath, n, start)
    }


    /** `tsp`: explores every completion of `currentPath`; afterwards the
        recorded cost is at most the cycle cost of each of them, and the path
        and flags are as before the call. */
    method Tsp(startNode: int, graph: seq<seq<int>>, currentCost: int, numNodes: nat)
      requires IsSquare(graph, numNodes) && 0 <= startNode < numNodes
      requires PathState(numNodes, startNode) && BestRecorded(graph, numNodes, startNode, minCost, optimalRoute)
      requires currentCost == PathCost(graph, numNodes, currentPath)
      modifies this
      ensures visited == old(visited) && currentPath == old(currentPath)
      ensures BestRecorded(graph, numNodes, startNode, minCost, optimalRoute)
      ensures minCost.AtMost(old(minCost))
      ensures minCost == old(minCost) ==> optimalRoute == old(optimalRoute)
      ensures Covers(graph, numNodes, startNode, currentPath, minCost)
      decreases numNodes - |currentPath|, 1
    {
      if |currentPath| == numNodes {
        CloseCycle(startNode, graph, currentCost, numNodes);
        return;
      }
      ghost var path := currentPath;
      var i := 0;
      while i < numNodes
        invariant 0 <= i <= numNodes
        invariant visited == old(visited) && currentPath == path
        invariant BestRecorded(graph, numNodes, startNode, minCost, optimalRoute)
        invariant minCost.AtMost(old(minCost))
        invariant minCost == old(minCost) ==> optimalRoute == old(optimalRoute)
        invariant forall route :: IsRoute(route, numNodes, startNode) && route[..|path|] == path && route[|path|] < i ==>
                    minCost.Finite? && minCost.value <= CycleCost(graph, numNodes, route)
      {
        if !visited[i] {
          Extend(startNode, graph, currentCost, numNodes, i);
        } else {
          forall route | IsRoute(route, numNodes, startNode) && route[..|path|] == path && route[|path|] == i
            ensures false
          {
            NextNotOnPrefix(route, path);
          }
        }
        i := i + 1;
      }
    }

    /** The base case: the path holds every node, so the cycle it closes is
        the only completion, and it is recorded when it is cheaper. */
    method CloseCycle(startNode: int, graph: seq<seq<int>>, currentCost: int, numNodes: nat)
      requires IsSquare(graph, numNodes) && 0 <= startNode < numNodes
      requires PathState(numNodes, startNode) && BestRecorded(graph, numNodes, startNode, minCost, optimalRoute)
      requires currentCost == PathCost(graph, numNodes, currentPath)
      requires |currentPath| == numNodes
      modifies this`minCost, this`optimalRoute
      ensures BestRecorded(graph, numNodes, startNode, minCost, optimalRoute)
      ensures minCost.AtMost(old(minCost))
      ensures minCost == old(minCost) ==> optimalRoute == old(optimalRoute)
      ensures Covers(graph, numNodes, startNode, currentPath, minCost)
    {
      var cost := currentCost + graph[currentPath[|currentPath| - 1]][startNode];
      if minCost.Above(cost) {
        minCost := Finite(cost);
        optimalRoute := currentPath;
      }
      forall route | IsRoute(route, numNodes, startNode) && route[..|currentPath|] == currentPath
        ensures minCost.Finite? && minCost.value <= CycleCost(graph, numNodes, route)
      {
        assert route == currentPath;
      }
    }

    /** One choice of the loop: visit `i`, search on, then backtrack.
        Afterwards `visited` and `currentPath` are as before, and every route
        continuing the path with `i` is covered. */
    method Extend(startNode: int, graph: seq<seq<int>>, currentCost: int, numNodes: nat, i: int)
      requires IsSquare(graph, numNodes) && 0 <= startNode < numNodes
      requires PathState(numNodes, startNode) && BestRecorded(graph, numNodes, startNode, minCost, optimalRoute)
      requires currentCost == PathCost(graph, numNodes, currentPath)
      requires |currentPath| < numNodes && 0 <= i < numNodes && !visited[i]
      modifies this
      ensures visited == old(visited) && currentPath == old(currentPath)
      ensures BestRecorded(graph, numNodes, startNode, minCost, optimalRoute)
      ensures minCost.AtMost(old(minCost))
      ensures minCost == old(minCost) ==> optimalRoute == old(optimalRoute)
      ensures CoversChoice(graph, numNodes, startNode, currentPath, i, minCost)
      decreases numNodes - |currentPath|, 0
    {
      ghost var path, flags := currentPath, visited;
      var cost := currentCost;
      PushNode(graph, visited, currentPath, numNodes, startNode, i);
      Choose(i);
      cost := cost + graph[currentPath[|currentPath| - 2]][i];
      Tsp(startNode, graph, cost, numNodes);
      cost := cost - graph[currentPath[|currentPath| - 2]][i];
      Backtrack(i);
      assert visited == flags[i := true][i := false] == flags;
      ChoiceCovered(graph, numNodes, startNode, path, i, minCost);
    }

    /** Marks `i` visited and appends it to the path. */
    method Choose(i: int)
      requires 0 <= i < |visited|
      modifies this`visited, this`currentPath
      ensures visited == old(visited)[i := true] && currentPath == old(currentPath) + [i]
    {
      visited := visited[i := true];
      currentPath := currentPath + [i];
    }

    /** Removes the last node of the path and marks `i` unvisited again. */
    method Backtrack(i: int)
      requires 0 <= i < |visited| && |currentPath| >= 1
      modifies this`visited, this`currentPath
      ensures currentPath == old(currentPath)[..|old(currentPath)| - 1] && visited == old(visited)[i := false]
    {
      currentPath := currentPath[..|currentPath| - 1];
      visited := visited[i := false];
    }
  }

  /** The search as `main` starts it: the result is a route from `start`
      whose cycle cost is minimal among all routes. */
  method ShortestRoute(graph: seq<seq<int>>, n: nat, start: int) returns (cost: int, route: seq<int>)
    requires IsSquare(graph, n) && 0 <= start < n
    ensures IsRoute(route, n, start) && cost == CycleCost(graph, n, route)
    ensures forall r :: IsRoute(r, n, start) ==> cost <= CycleCost(graph, n, r)
  {
    var search := new TspSearch(n, start);
    search.Tsp(start, graph, 0, n);
    ghost var someRoute := RouteExists(n, start);
    assert search.minCost.Finite?;
    cost := search.minCost.value;
    route := search.optimalRoute;
    forall r | IsRoute(r, n, start)
      ensures cost <= CycleCost(graph, n, r)
    {
      assert r[..1] == [start];
    }
  }
}
