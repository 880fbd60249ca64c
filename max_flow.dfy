/** Ford-Fulkerson maximum flow with depth-first augmenting paths
    (`dfs`, `maxFlow` and `indexToChar` in Integrity_Activity_2/main.cpp).
    The residual matrix starts as a copy of the capacities; each augmenting
    path found by `dfs` is recorded in `parent`, its bottleneck is computed
    along the parent pointers, and the residual entries along the path are
    moved from the forward to the backward direction. */
module MaxFlow {
  import opened Common

  // ---- sums over a row ----

  function Sum(row: seq<int>): int
  {
    if row == [] then 0 else row[0] + Sum(row[1..])
  }

  /** Sum of the positive entries: the capacity leaving a node. */
  function PositiveSum(row: seq<int>): int
  {
    if row == [] then 0 else (if row[0] > 0 then row[0] else 0) + PositiveSum(row[1..])
  }

  /** Sum of the negative entries. */
  function NegativeSum(row: seq<int>): int
  {
    if row == [] then 0 else (if row[0] < 0 then row[0] else 0) + NegativeSum(row[1..])
  }

  function MinZero(x: int): int
  {
    if x < 0 then x else 0
  }

  lemma {:induction false} SumSplits(row: seq<int>)
    ensures Sum(row) == PositiveSum(row) + NegativeSum(row)
  {
    if row != [] {
      SumSplits(row[1..]);
    }
  }

  /** Changing one entry by `d` changes the sum by `d`. */
  lemma {:induction false} SumUpdate(row: seq<int>, j: int, d: int)
    requires 0 <= j < |row|
    ensures Sum(row[j := row[j] + d]) == Sum(row) + d
  {
    if j > 0 {
      assert row[j := row[j] + d][1..] == row[1..][j - 1 := row[j] + d];
      SumUpdate(row[1..], j - 1, d);
    }
  }

  /** A row no entry of which is below the negative part of `bound` sums to
      at least the negative sum of `bound`. */
  lemma {:induction false} SumAtLeastNegative(row: seq<int>, bound: seq<int>)
    requires |row| == |bound|
    requires forall b :: 0 <= b < |row| ==> row[b] >= MinZero(bound[b])
    ensures Sum(row) >= NegativeSum(bound)
  {
    if row != [] {
      SumAtLeastNegative(row[1..], bound[1..]);
    }
  }

  // ---- residual graphs ----

  /** The invariant of the residual matrix relative to the capacities:
      each pair keeps its combined capacity, no entry drops below zero or
      below its capacity, the source has sent `total` units, the sink has
      received them, and every other node passes on what it receives. */
  ghost predicate FlowInvariant(graph: seq<seq<int>>, residual: seq<seq<int>>, source: int, sink: int, total: int)
    requires IsSquare(graph, |graph|) && 0 <= source < |graph| && 0 <= sink < |graph|
  {
    && KeepsPairs(graph, residual)
    && NotBelow(graph, residual)
    && Sum(residual[source]) + total == Sum(graph[source])
    && Sum(residual[sink]) == Sum(graph[sink]) + total
    && (forall x :: 0 <= x < |graph| && x != source && x != sink ==> Sum(residual[x]) == Sum(graph[x]))
  }

  /** An augmentation by `flow` keeps the invariant and adds `flow` to the total. */
  lemma AugmentKeepsInvariant(graph: seq<seq<int>>, residual: seq<seq<int>>, residual': seq<seq<int>>,
                              source: int, sink: int, total: int, flow: int)
    requires IsSquare(graph, |graph|) && 0 <= source < |graph| && 0 <= sink < |graph| && source != sink
    requires FlowInvariant(graph, residual, source, sink, total)
    requires PushedTo(residual, residual', sink, source, flow)
    ensures FlowInvariant(graph, residual', source, sink, total + flow)
  {
    var n := |graph|;
    forall a, b | 0 <= a < n && 0 <= b < n
      ensures residual'[a][b] + residual'[b][a] == graph[a][b] + graph[b][a]
      ensures residual'[a][b] >= MinZero(graph[a][b])
    {
      assert residual'[a][b] + residual'[b][a] == residual[a][b] + residual[b][a];
      assert residual'[a][b] >= MinZero(residual[a][b]);
      assert residual[a][b] >= MinZero(graph[a][b]);
    }
    forall x | 0 <= x < n && x != source && x != sink
      ensures Sum(residual'[x]) == Sum(graph[x])
    {
      assert Sum(residual'[x]) == Sum(residual[x]);
    }
    assert Sum(residual'[source]) == Sum(residual[source]) - flow;
    assert Sum(residual'[sink]) == Sum(residual[sink]) + flow;
  }

  /** Under the invariant, the source's residual row sums to at least the
      negative entries of its capacity row. */
  lemma SourceRowBound(graph: seq<seq<int>>, residual: seq<seq<int>>, source: int, sink: int, total: int)
    requires IsSquare(graph, |graph|) && 0 <= source < |graph| && 0 <= sink < |graph|
    requires FlowInvariant(graph, residual, source, sink, total)
    ensures Sum(residual[source]) >= NegativeSum(graph[source])
  {
    SumAtLeastNegative(residual[source], graph[source]);
  }

  function Visited(parent: seq<int>): set<int>
  {
    set j | 0 <= j < |parent| && parent[j] != -1
  }

  /** The state before a search: only the source is visited. */
  lemma FreshSearch(residual: seq<seq<int>>, source: int, sink: int, parent: seq<int>, depth: seq<nat>)
    requires IsSquare(residual, |residual|) && 0 <= source < |residual| && 0 <= sink < |residual| && source != sink
    requires |parent| == |residual| && |depth| == |residual|
    requires parent[source] == -2 && forall j :: 0 <= j < |parent| && j != source ==> parent[j] == -1
    ensures Tree(residual, source, parent, depth) && parent[sink] == -1
    ensures ClosedExcept(residual, parent, {source})
  {
  }

  /** A search that visited every successor of every visited node without
      reaching the sink leaves a cut behind. */
  lemma SearchLeavesCut(residual: seq<seq<int>>, source: int, sink: int, parent: seq<int>, depth: seq<nat>)
    requires IsSquare(residual, |residual|) && Tree(residual, source, parent, depth)
    requires 0 <= sink < |residual| && parent[sink] == -1 && ClosedExcept(residual, parent, {})
    ensures IsCut(residual, source, sink, Visited(parent))
  {
    forall a, b | a in Visited(parent) && 0 <= a < |residual| && 0 <= b < |residual| && residual[a][b] > 0
      ensures b in Visited(parent)
    {
      assert Closed(residual, parent, a);
    }
  }

  /** `reached` holds the source, not the sink, and every node a positive
      residual entry leads to from it: no augmenting path is left. */
  ghost predicate IsCut(residual: seq<seq<int>>, source: int, sink: int, reached: set<int>)
    requires IsSquare(residual, |residual|)
  {
    && source in reached && sink !in reached
    && forall a, b :: a in reached && 0 <= a < |residual| && 0 <= b < |residual| && residual[a][b] > 0 ==> b in reached
  }

  /** `parent` is a search tree rooted at the source: -1 marks an unvisited
      node, -2 the source, and every other visited node points to a visited
      node of smaller depth through a positive residual entry. */
  ghost predicate Tree(residual: seq<seq<int>>, source: int, parent: seq<int>, depth: seq<nat>)
    requires IsSquare(residual, |residual|)
  {
    && |parent| == |residual| && |depth| == |residual| && 0 <= source < |residual|
    && parent[source] == -2
    && (forall m :: 0 <= m < |parent| && m != source && parent[m] != -1 ==>
          0 <= parent[m] < |parent| && depth[parent[m]] < depth[m] && residual[parent[m]][m] > 0)
    && (forall a, b :: 0 <= a < |parent| && 0 <= b < |parent| && parent[b] == a ==> parent[a] != -1)
  }

  /** Visited nodes stay visited, with the same parent. */
  ghost predicate MarksGrow(parent: seq<int>, parent': seq<int>)
  {
    |parent'| == |parent| && forall j :: 0 <= j < |parent| && parent[j] != -1 ==> parent'[j] == parent[j]
  }

  lemma MarksGrowTransitive(p0: seq<int>, p1: seq<int>, p2: seq<int>)
    requires MarksGrow(p0, p1) && MarksGrow(p1, p2)
    ensures MarksGrow(p0, p2)
  {
  }

  /** Growing visits leave no more nodes unvisited. */
  lemma GrowingShrinksUnvisited(p0: seq<int>, p1: seq<int>)
    requires MarksGrow(p0, p1)
    ensures Unvisited(p1) <= Unvisited(p0)
  {
  }

  /** Visiting `next` from `current` keeps the tree and leaves one node fewer unvisited. */
  lemma VisitKeepsTree(residual: seq<seq<int>>, source: int, parent: seq<int>, depth: seq<nat>, current: int, next: int)
    requires IsSquare(residual, |residual|) && Tree(residual, source, parent, depth)
    requires 0 <= current < |residual| && 0 <= next < |residual|
    requires parent[current] != -1 && parent[next] == -1 && residual[current][next] > 0
    ensures Tree(residual, source, parent[next := current], depth[next := depth[current] + 1])
    ensures MarksGrow(parent, parent[next := current])
    ensures Unvisited(parent[next := current]) < Unvisited(parent)
  {
    assert next in Unvisited(parent) && next !in Unvisited(parent[next := current]);
  }

  /** A closed node stays closed while visits only grow. */
  lemma ClosedStays(residual: seq<seq<int>>, parent: seq<int>, parent': seq<int>, m: int)
    requires IsSquare(residual, |residual|) && |parent| == |residual| && 0 <= m < |residual|
    requires MarksGrow(parent, parent') && Closed(residual, parent, m)
    ensures Closed(residual, parent', m)
  {
  }

  /** Every positive residual entry out of `m` to a node below `next`
      leads to a visited node. */
  ghost predicate ClosedUpTo(residual: seq<seq<int>>, parent: seq<int>, m: int, next: int)
    requires IsSquare(residual, |residual|) && |parent| == |residual| && 0 <= m < |residual| && next <= |residual|
  {
    forall b :: 0 <= b < next && residual[m][b] > 0 ==> parent[b] != -1
  }

  /** Once the entry to `next` is dealt with, one more successor is covered. */
  lemma ClosedUpToStep(residual: seq<seq<int>>, parent: seq<int>, parent': seq<int>, m: int, next: int)
    requires IsSquare(residual, |residual|) && |parent| == |residual| && 0 <= m < |residual| && 0 <= next < |residual|
    requires ClosedUpTo(residual, parent, m, next) && MarksGrow(parent, parent')
    requires residual[m][next] > 0 ==> parent'[next] != -1 || parent[next] != -1
    ensures ClosedUpTo(residual, parent', m, next + 1)
  {
  }

  /** Every visited node other than those in `open` is closed. */
  ghost predicate ClosedExcept(residual: seq<seq<int>>, parent: seq<int>, open: set<int>)
    requires IsSquare(residual, |residual|) && |parent| == |residual|
  {
    forall m :: 0 <= m < |residual| && parent[m] != -1 && m !in open ==> Closed(residual, parent, m)
  }

  lemma ClosedExceptStays(residual: seq<seq<int>>, parent: seq<int>, parent': seq<int>, open: set<int>, open': set<int>)
    requires IsSquare(residual, |residual|) && |parent| == |residual|
    requires MarksGrow(parent, parent') && ClosedExcept(residual, parent, open)
    requires forall m :: 0 <= m < |residual| && parent'[m] != -1 && parent[m] == -1 ==> m in open'
    requires open <= open'
    ensures ClosedExcept(residual, parent', open')
  {
    forall m | 0 <= m < |residual| && parent'[m] != -1 && m !in open'
      ensures Closed(residual, parent', m)
    {
      ClosedStays(residual, parent, parent', m);
    }
  }

  function Unvisited(parent: seq<int>): set<int>
  {
    set j | 0 <= j < |parent| && parent[j] == -1
  }

  /** Every positive residual entry out of `m` leads to a visited node. */
  ghost predicate Closed(residual: seq<seq<int>>, parent: seq<int>, m: int)
    requires IsSquare(residual, |residual|) && |parent| == |residual| && 0 <= m < |residual|
  {
    forall b :: 0 <= b < |residual| && residual[m][b] > 0 ==> parent[b] != -1
  }

  /** `dfs`: searches on from `current`, visiting nodes through positive
      residual entries and recording their parents. It reports a path when
      the sink is reached; when it reports none, every visited node off the
      call stack has all its positive successors visited, and the sink is
      still unvisited. */
  method Dfs(residual: seq<seq<int>>, current: int, sink: int, parent: array<int>,
             ghost source: int, ghost depth: seq<nat>, ghost stack: set<int>)
    returns (found: bool, ghost depth': seq<nat>)
    requires IsSquare(residual, |residual|) && parent.Length == |residual|
    requires 0 <= current < |residual| && 0 <= sink < |residual|
    requires Tree(residual, source, parent[..], depth) && parent[current] != -1
    requires parent[sink] != -1 ==> current == sink
    requires forall m :: m in stack ==> 0 <= m < |residual| && parent[m] != -1
    requires ClosedExcept(residual, parent[..], stack + {current})
    modifies parent
    ensures Tree(residual, source, parent[..], depth')
    ensures MarksGrow(old(parent[..]), parent[..])
    ensures found ==> parent[sink] != -1
    ensures !found ==> parent[sink] == -1 && ClosedExcept(residual, parent[..], stack)
    decreases Unvisited(parent[..])
  {
    depth' := depth;
    if current == sink {
      found := true;
      return;
    }
    var next := 0;
    while next < |residual|
      invariant 0 <= next <= |residual|
      invariant Tree(residual, source, parent[..], depth')
      invariant MarksGrow(old(parent[..]), parent[..])
      invariant parent[sink] == -1
      invariant ClosedUpTo(residual, parent[..], current, next)
      invariant ClosedExcept(residual, parent[..], stack + {current})
    {
      ghost var before := parent[..];
      if residual[current][next] > 0 && parent[next] == -1 {
        VisitStep(residual, source, old(parent[..]), before, depth', current, next, stack);
        parent[next] := current;
        assert parent[..] == before[next := current];
        ghost var marked := parent[..];
        depth' := depth'[next := depth'[current] + 1];
        var reached;
        reached, depth' := Dfs(residual, next, sink, parent, source, depth', stack + {current});
        MarksGrowTransitive(old(parent[..]), marked, parent[..]);
        MarksGrowTransitive(before, marked, parent[..]);
        if reached {
          found := true;
          return;
        }
      }
      ClosedUpToStep(residual, before, parent[..], current, next);
      next := next + 1;
    }
    found := false;
  }

  /** Visiting `next` from `current` during a search keeps everything the
      recursive call on `next` needs. */
  lemma VisitStep(residual: seq<seq<int>>, source: int, start: seq<int>, parent: seq<int>, depth: seq<nat>,
                  current: int, next: int, stack: set<int>)
    requires IsSquare(residual, |residual|) && Tree(residual, source, parent, depth)
    requires 0 <= current < |residual| && 0 <= next < |residual|
    requires parent[current] != -1 && parent[next] == -1 && residual[current][next] > 0
    requires MarksGrow(start, parent) && ClosedExcept(residual, parent, stack + {current})
    ensures Tree(residual, source, parent[next := current], depth[next := depth[current] + 1])
    ensures MarksGrow(start, parent[next := current]) && MarksGrow(parent, parent[next := current])
    ensures Unvisited(parent[next := current]) < Unvisited(start)
    ensures ClosedExcept(residual, parent[next := current], stack + {current} + {next})
  {
    VisitKeepsTree(residual, source, parent, depth, current, next);
    GrowingShrinksUnvisited(start, parent);
    MarksGrowTransitive(start, parent, parent[next := current]);
    ClosedExceptStays(residual, parent, parent[next := current], stack + {current}, stack + {current} + {next});
  }

  /** The residual entry of the `k`-th step of a walk listed from its end:
      the entry from `walk[k + 1]` to `walk[k]`. */
  function StepCapacity(residual: seq<seq<int>>, walk: seq<int>, k: int): int
    requires IsSquare(residual, |residual|) && 0 <= k < |walk| - 1
    requires 0 <= walk[k] < |residual| && 0 <= walk[k + 1] < |residual|
  {
    residual[walk[k + 1]][walk[k]]
  }

  /** The `k`-th step of a walk listed from its end follows a parent pointer. */
  predicate Follows(parent: seq<int>, walk: seq<int>, k: int)
    requires 0 <= k < |walk| - 1 && 0 <= walk[k] < |parent|
  {
    walk[k + 1] == parent[walk[k]]
  }

  /** A chain extended at its front by a node whose parent heads it. */
  lemma ChainCons(residual: seq<seq<int>>, source: int, parent: seq<int>, v: int, rest: seq<int>)
    requires IsSquare(residual, |residual|) && |parent| == |residual|
    requires Chain(residual, source, parent, rest) && 0 <= v < |residual| && v != source
    requires rest[0] == parent[v] && residual[parent[v]][v] > 0 && v !in rest
    ensures Chain(residual, source, parent, [v] + rest)
  {
    var w := [v] + rest;
    forall k | 0 <= k < |w| - 1
      ensures Follows(parent, w, k) && StepCapacity(residual, w, k) > 0
    {
      if k > 0 {
        assert Follows(parent, rest, k - 1) && StepCapacity(residual, rest, k - 1) > 0;
      }
    }
  }

  /** The path the parent pointers trace from `v` back to the source. */
  ghost function PathBack(residual: seq<seq<int>>, source: int, parent: seq<int>, depth: seq<nat>, v: int): (w: seq<int>)
    requires IsSquare(residual, |residual|) && Tree(residual, source, parent, depth)
    requires 0 <= v < |residual| && parent[v] != -1
    ensures Chain(residual, source, parent, w) && w[0] == v
    ensures forall k :: 0 <= k < |w| ==> depth[w[k]] <= depth[v]
    decreases depth[v]
  {
    if v == source then [v]
    else
      var rest := PathBack(residual, source, parent, depth, parent[v]);
      assert forall k :: 0 <= k < |rest| ==> rest[k] != v;
      ChainCons(residual, source, parent, v, rest);
      [v] + rest
  }

  /** The bottleneck of the path the parent pointers trace back from the
      sink: the smallest residual entry along it, positive because every
      entry of the tree is. `walk` lists the path from the sink back to the
      source. */
  method Bottleneck(residual: seq<seq<int>>, source: int, sink: int, parent: seq<int>, ghost depth: seq<nat>)
    returns (flow: int, ghost walk: seq<int>)
    requires IsSquare(residual, |residual|) && |parent| == |residual|
    requires Tree(residual, source, parent, depth)
    requires 0 <= sink < |residual| && parent[sink] != -1 && source != sink
    ensures flow > 0
    ensures IsWalk(residual, source, sink, parent, walk)
    ensures forall k :: 0 <= k < |walk| - 1 ==> flow <= StepCapacity(residual, walk, k)
    ensures exists k :: 0 <= k < |walk| - 1 && flow == StepCapacity(residual, walk, k)
  {
    walk := PathBack(residual, source, parent, depth, sink);
    var bound: Bound := Infinity;
    var v := sink;
    ghost var i := 0;
    ghost var at := 0;
    while v != source
      invariant 0 <= i < |walk| && v == walk[i]
      invariant bound.Finite? <==> i > 0
      invariant bound.Finite? ==> bound.value > 0
      invariant bound.Finite? ==> forall k :: 0 <= k < i ==> bound.value <= StepCapacity(residual, walk, k)
      invariant bound.Finite? ==> 0 <= at < i && bound.value == StepCapacity(residual, walk, at)
      decreases |walk| - i
    {
      var u := parent[v];
      assert i < |walk| - 1 && Follows(parent, walk, i);
      if bound.Above(residual[u][v]) {
        bound := Finite(residual[u][v]);
        at := i;
      }
      v := u;
      i := i + 1;
    }
    flow := bound.value;
  }

  /** `walk` runs from the sink back to the source along parent pointers,
      through positive residual entries, without repeating a node. */
  ghost predicate IsWalk(residual: seq<seq<int>>, source: int, sink: int, parent: seq<int>, walk: seq<int>)
    requires IsSquare(residual, |residual|) && |parent| == |residual|
  {
    |walk| >= 2 && walk[0] == sink && Chain(residual, source, parent, walk)
  }

  /** `walk` ends at the source, each node's successor in it is its parent,
      through a positive residual entry, and no node repeats. */
  ghost predicate Chain(residual: seq<seq<int>>, source: int, parent: seq<int>, walk: seq<int>)
    requires IsSquare(residual, |residual|) && |parent| == |residual|
  {
    && |walk| >= 1 && walk[|walk| - 1] == source
    && (forall k :: 0 <= k < |walk| ==> 0 <= walk[k] < |residual|)
    && (forall k :: 0 <= k < |walk| - 1 ==> walk[k] != source)
    && (forall k :: 0 <= k < |walk| - 1 ==> Follows(parent, walk, k))
    && (forall k :: 0 <= k < |walk| - 1 ==> StepCapacity(residual, walk, k) > 0)
    && (forall i, j :: 0 <= i < j < |walk| ==> walk[i] != walk[j])
  }

  /** `current` is square and keeps every pair's combined entry of `residual`. */
  ghost predicate KeepsPairs(residual: seq<seq<int>>, current: seq<seq<int>>)
    requires IsSquare(residual, |residual|)
  {
    && IsSquare(current, |residual|)
    && forall a, b :: 0 <= a < |residual| && 0 <= b < |residual| ==>
         current[a][b] + current[b][a] == residual[a][b] + residual[b][a]
  }

  /** No entry of `current` is below zero or below its entry in `residual`. */
  ghost predicate NotBelow(residual: seq<seq<int>>, current: seq<seq<int>>)
    requires IsSquare(residual, |residual|) && IsSquare(current, |residual|)
  {
    forall a, b :: 0 <= a < |residual| && 0 <= b < |residual| ==> current[a][b] >= MinZero(residual[a][b])
  }

  /** Row sums after pushing `flow` from the sink back to `v`: the sink's
      row has gained it, `v`'s row has lost it, the others are unchanged. */
  ghost predicate RowSums(residual: seq<seq<int>>, current: seq<seq<int>>, sink: int, v: int, flow: int)
    requires IsSquare(residual, |residual|) && IsSquare(current, |residual|)
  {
    forall x :: 0 <= x < |residual| ==>
      Sum(current[x]) == Sum(residual[x]) + (if x == sink then flow else 0) - (if x == v then flow else 0)
  }

  /** What pushing `flow` from the sink back to `v` has done to `residual`,
      giving `current`. */
  ghost predicate PushedTo(residual: seq<seq<int>>, current: seq<seq<int>>, sink: int, v: int, flow: int)
    requires IsSquare(residual, |residual|)
  {
    KeepsPairs(residual, current) && NotBelow(residual, current) && RowSums(residual, current, sink, v, flow)
  }

  /** The update of one step: the entry from `u` to `v` loses `flow`, then
      the entry from `v` to `u` gains it. */
  function Push(current: seq<seq<int>>, u: int, v: int, flow: int): seq<seq<int>>
    requires IsSquare(current, |current|) && 0 <= u < |current| && 0 <= v < |current|
  {
    var mid := current[u := current[u][v := current[u][v] - flow]];
    mid[v := mid[v][u := mid[v][u] + flow]]
  }

  /** The two assignments of one augmentation step. */
  method PushEdge(current: seq<seq<int>>, u: int, v: int, flow: int) returns (next: seq<seq<int>>)
    requires IsSquare(current, |current|) && 0 <= u < |current| && 0 <= v < |current|
    ensures next == Push(current, u, v, flow)
  {
    next := current[u := current[u][v := current[u][v] - flow]];
    next := next[v := next[v][u := next[v][u] + flow]];
  }

  /** One push keeps pair sums, and keeps entries from falling below zero
      when the forward entry held at least `flow`. */
  lemma PushEntries(residual: seq<seq<int>>, current: seq<seq<int>>, u: int, v: int, flow: int)
    requires IsSquare(residual, |residual|) && KeepsPairs(residual, current) && NotBelow(residual, current)
    requires 0 <= u < |residual| && 0 <= v < |residual| && u != v
    requires flow > 0 && flow <= current[u][v]
    ensures KeepsPairs(residual, Push(current, u, v, flow)) && NotBelow(residual, Push(current, u, v, flow))
  {
    var n := |residual|;
    var next := Push(current, u, v, flow);
    forall a, b | 0 <= a < n && 0 <= b < n
      ensures next[a][b] + next[b][a] == residual[a][b] + residual[b][a]
      ensures next[a][b] >= MinZero(residual[a][b])
    {
      PushAt(current, u, v, flow, a, b);
      PushAt(current, u, v, flow, b, a);
      assert current[a][b] + current[b][a] == residual[a][b] + residual[b][a];
      assert current[a][b] >= MinZero(residual[a][b]);
    }
  }

  /** One entry after a push: the forward entry lost `flow`, the backward
      entry gained it, every other entry is as it was. */
  lemma PushAt(current: seq<seq<int>>, u: int, v: int, flow: int, a: int, b: int)
    requires IsSquare(current, |current|) && 0 <= u < |current| && 0 <= v < |current| && u != v
    requires 0 <= a < |current| && 0 <= b < |current|
    ensures |Push(current, u, v, flow)| == |current| && |Push(current, u, v, flow)[a]| == |current|
    ensures Push(current, u, v, flow)[a][b] ==
              if a == u && b == v then current[u][v] - flow
              else if a == v && b == u then current[v][u] + flow
              else current[a][b]
  {
  }

  /** One push moves `flow` from `u`'s row sum to `v`'s. */
  lemma PushRowSums(residual: seq<seq<int>>, current: seq<seq<int>>, sink: int, u: int, v: int, flow: int)
    requires IsSquare(residual, |residual|) && IsSquare(current, |residual|)
    requires RowSums(residual, current, sink, v, flow)
    requires 0 <= u < |residual| && 0 <= v < |residual| && u != v && u != sink
    requires current[u] == residual[u]
    ensures IsSquare(Push(current, u, v, flow), |residual|)
    ensures RowSums(residual, Push(current, u, v, flow), sink, u, flow)
    ensures forall x :: 0 <= x < |residual| && x != u && x != v ==> Push(current, u, v, flow)[x] == current[x]
  {
    var n := |residual|;
    var rowU := current[u][v := current[u][v] - flow];
    var rowV := current[v][u := current[v][u] + flow];
    var next := Push(current, u, v, flow);
    assert next == current[u := rowU][v := rowV];
    SumUpdate(current[u], v, -flow);
    SumUpdate(current[v], u, flow);
    forall x | 0 <= x < n
      ensures Sum(next[x]) == Sum(residual[x]) + (if x == sink then flow else 0) - (if x == u then flow else 0)
    {
      assert Sum(current[x]) == Sum(residual[x]) + (if x == sink then flow else 0) - (if x == v then flow else 0);
      if x == u {
        assert next[x] == rowU;
      } else if x == v {
        assert next[x] == rowV;
      } else {
        assert next[x] == current[x];
      }
    }
  }

  /** `a` is the parent of `b` on the walk: the walk steps from `b` back to `a`. */
  ghost predicate StepOf(walk: seq<int>, a: int, b: int)
  {
    exists k :: 0 <= k < |walk| - 1 && walk[k + 1] == a && walk[k] == b
  }

  /** `current` is `residual` with `flow` pushed along every step of `walk`:
      the entry from a parent to its child on the walk has lost `flow`, the
      entry back has gained it, and every other entry is unchanged. */
  ghost predicate Augmented(residual: seq<seq<int>>, current: seq<seq<int>>, walk: seq<int>, flow: int)
    requires IsSquare(residual, |residual|) && IsSquare(current, |residual|)
  {
    forall a, b :: 0 <= a < |residual| && 0 <= b < |residual| ==>
      current[a][b] == residual[a][b] - (if StepOf(walk, a, b) then flow else 0) + (if StepOf(walk, b, a) then flow else 0)
  }

  /** Pushing along one more step of a walk without repeated nodes changes
      only that step's two entries: neither pair was a step before. */
  lemma AugmentedStep(residual: seq<seq<int>>, current: seq<seq<int>>, walk: seq<int>, i: int, flow: int)
    requires IsSquare(residual, |residual|) && IsSquare(current, |residual|)
    requires 0 <= i < |walk| - 1 && forall k :: 0 <= k < |walk| ==> 0 <= walk[k] < |residual|
    requires forall p, q :: 0 <= p < q < |walk| ==> walk[p] != walk[q]
    requires Augmented(residual, current, walk[..i + 1], flow)
    ensures IsSquare(Push(current, walk[i + 1], walk[i], flow), |residual|)
    ensures Augmented(residual, Push(current, walk[i + 1], walk[i], flow), walk[..i + 2], flow)
  {
    var u, v := walk[i + 1], walk[i];
    var w, w' := walk[..i + 1], walk[..i + 2];
    var next := Push(current, u, v, flow);
    assert u != v;
    forall a, b | 0 <= a < |residual| && 0 <= b < |residual|
      ensures |next[a]| == |residual|
      ensures next[a][b] == residual[a][b] - (if StepOf(w', a, b) then flow else 0) + (if StepOf(w', b, a) then flow else 0)
    {
      PushAt(current, u, v, flow, a, b);
      StepOfExtend(walk, i, a, b);
      StepOfExtend(walk, i, b, a);
    }
  }

  /** The steps of the walk's first `i + 2` nodes are those of its first
      `i + 1` nodes and the step from `walk[i]` back to `walk[i + 1]`. */
  lemma StepOfExtend(walk: seq<int>, i: int, a: int, b: int)
    requires 0 <= i < |walk| - 1
    ensures StepOf(walk[..i + 2], a, b) <==> StepOf(walk[..i + 1], a, b) || (a == walk[i + 1] && b == walk[i])
  {
    var w, w' := walk[..i + 1], walk[..i + 2];
    if StepOf(w', a, b) && !(a == walk[i + 1] && b == walk[i]) {
      var k :| 0 <= k < |w'| - 1 && w'[k + 1] == a && w'[k] == b;
      assert k < |w| - 1 && w[k + 1] == a && w[k] == b;
    }
    if StepOf(w, a, b) {
      var k :| 0 <= k < |w| - 1 && w[k + 1] == a && w[k] == b;
      assert w'[k + 1] == a && w'[k] == b;
    }
    if a == walk[i + 1] && b == walk[i] {
      assert w'[i + 1] == a && w'[i] == b;
    }
  }

  /** Pushes `flow` along the walk, from the sink back to the source: each
      entry from a parent to its child on the walk loses `flow`, the entry
      back gains it, and every other entry is unchanged. So every pair keeps
      its combined capacity, no entry falls below zero or below its old
      value, the sink's row gains `flow`, the source's row loses it, and
      every other row keeps its sum. */
  method AugmentPath(residual: seq<seq<int>>, source: int, sink: int, parent: seq<int>, flow: int, ghost walk: seq<int>)
    returns (residual': seq<seq<int>>)
    requires IsSquare(residual, |residual|) && |parent| == |residual| && source != sink
    requires IsWalk(residual, source, sink, parent, walk)
    requires flow > 0 && forall k :: 0 <= k < |walk| - 1 ==> flow <= StepCapacity(residual, walk, k)
    ensures IsSquare(residual', |residual|) && Augmented(residual, residual', walk, flow)
    ensures PushedTo(residual, residual', sink, source, flow)
  {
    residual' := residual;
    var v := sink;
    ghost var i := 0;
    assert Augmented(residual, residual', walk[..1], flow);
    while v != source
      invariant 0 <= i < |walk| && v == walk[i]
      invariant PushedTo(residual, residual', sink, v, flow)
      invariant Augmented(residual, residual', walk[..i + 1], flow)
      invariant forall k :: i < k < |walk| ==> residual'[walk[k]] == residual[walk[k]]
      decreases |walk| - i
    {
      var u := parent[v];
      AugmentStep(residual, residual', source, sink, parent, flow, walk, i);
      AugmentedStep(residual, residual', walk, i, flow);
      residual' := PushEdge(residual', u, v, flow);
      v := u;
      i := i + 1;
    }
    assert walk[..i + 1] == walk;
  }

  /** One step of the augmentation, from `walk[i]` back to its parent,
      keeps what the loop of `AugmentPath` maintains. */
  lemma AugmentStep(residual: seq<seq<int>>, current: seq<seq<int>>, source: int, sink: int,
                    parent: seq<int>, flow: int, walk: seq<int>, i: int)
    requires IsSquare(residual, |residual|) && |parent| == |residual| && source != sink
    requires IsWalk(residual, source, sink, parent, walk)
    requires flow > 0 && forall k :: 0 <= k < |walk| - 1 ==> flow <= StepCapacity(residual, walk, k)
    requires 0 <= i < |walk| && walk[i] != source
    requires PushedTo(residual, current, sink, walk[i], flow)
    requires forall k :: i < k < |walk| ==> current[walk[k]] == residual[walk[k]]
    ensures i + 1 < |walk| && 0 <= walk[i] < |residual| && parent[walk[i]] == walk[i + 1]
    ensures 0 <= walk[i + 1] < |residual| && IsSquare(current, |current|) && |current| == |residual|
    ensures PushedTo(residual, Push(current, walk[i + 1], walk[i], flow), sink, walk[i + 1], flow)
    ensures forall k :: i + 1 < k < |walk| ==> Push(current, walk[i + 1], walk[i], flow)[walk[k]] == residual[walk[k]]
  {
    var v := walk[i];
    assert i < |walk| - 1 && Follows(parent, walk, i);
    var u := walk[i + 1];
    assert u != v && u != sink;
    assert flow <= StepCapacity(residual, walk, i);
    PushEntries(residual, current, u, v, flow);
    PushRowSums(residual, current, sink, u, v, flow);
    var next := Push(current, u, v, flow);
    forall k | i + 1 < k < |walk|
      ensures next[walk[k]] == residual[walk[k]]
    {
      assert walk[k] != u && walk[k] != v;
    }
  }

  /** `maxFlow`: augments along the paths `dfs` finds until it finds none.
      The total is non-negative and at most the capacity leaving the source;
      the final residual matrix keeps the flow invariant, and the nodes the
      last search reached form a cut that no positive residual entry leaves. */
  method MaxFlow(graph: seq<seq<int>>, source: int, sink: int)
    returns (totalFlow: int, ghost residual: seq<seq<int>>, ghost reached: set<int>)
    requires IsSquare(graph, |graph|) && 0 <= source < |graph| && 0 <= sink < |graph|
    requires source != sink
    ensures 0 <= totalFlow <= PositiveSum(graph[source])
    ensures FlowInvariant(graph, residual, source, sink, totalFlow)
    ensures IsCut(residual, source, sink, reached)
  {
    var n := |graph|;
    totalFlow := 0;
    var residualGraph := graph;
    var parent := new int[n];
    while true
      invariant parent.Length == n
      invariant FlowInvariant(graph, residualGraph, source, sink, totalFlow)
      invariant totalFlow >= 0
      decreases Sum(residualGraph[source]) - NegativeSum(graph[source])
    {
      forall j | 0 <= j < n {
        parent[j] := -1;
      }
      parent[source] := -2;
      ghost var depth: seq<nat> := seq(n, _ => 0);
      FreshSearch(residualGraph, source, sink, parent[..], depth);
      ghost var depth';
      var found;
      found, depth' := Dfs(residualGraph, source, sink, parent, source, depth, {});
      if !found {
        reached := Visited(parent[..]);
        SearchLeavesCut(residualGraph, source, sink, parent[..], depth');
        break;
      }
      var flow, walk := Bottleneck(residualGraph, source, sink, parent[..], depth');
      var augmented := AugmentPath(residualGraph, source, sink, parent[..], flow, walk);
      AugmentKeepsInvariant(graph, residualGraph, augmented, source, sink, totalFlow, flow);
      residualGraph := augmented;
      totalFlow := totalFlow + flow;
      SourceRowBound(graph, residualGraph, source, sink, totalFlow);
    }
    residual := residualGraph;
    SourceRowBound(graph, residual, source, sink, totalFlow);
    SumSplits(graph[source]);
  }

  /** `indexToChar`: node `index` is printed as the character 'A' + index,
      which the narrowing to a one-byte `char` takes modulo 256. */
  function IndexToChar(index: int): (c: char)
    ensures 0 <= index < 26 ==> c == "ABCDEFGHIJKLMNOPQRSTUVWXYZ"[index]
  {
    ((65 + index) % 256) as char
  }
}
