# Classroom algorithms, modelled and proved in Dafny

This project models a set of independent algorithm exercises and proves what each one computes:

- union-find with path compression and union by rank;
- Kruskal's minimum spanning tree;
- brute-force travelling-salesman backtracking;
- Ford–Fulkerson maximum flow with depth-first augmenting paths;
- Floyd–Warshall all-pairs shortest paths with the "city with the fewest reachable neighbours" selection;
- KMP search with its failure table;
- two variants of Manacher's longest palindrome: framed by `^`/`$` sentinels, and bounds-checked;
- longest common substring by dynamic programming;
- a polynomial rolling string hash, and the "all strings distinct" scan;
- descending in-place merge sort;
- greedy coin change;
- 0/1 knapsack, both naive and memoised;
- the combinatorial skeleton of simulated-annealing TSP.

One module per algorithm, one file per module:

| file | module | models |
|---|---|---|
| `common.dfy` | `Common` | square matrices; `Bound`, an integer or "infinity", which stands in for the `INT_MAX` sentinels |
| `union_find.dfy` | `UnionFind` | class `DisjointSets` with `parent`/`rank` updated in place; the root of a node as a function of the forest |
| `kruskal.dfy` | `Kruskal` | the candidate edges, the sort by weight and the cycle-avoiding scan over a `DisjointSets` |
| `tsp.dfy` | `BruteForceTsp` | class `TspSearch`: the best cost and route, and the `visited`/`currentPath` state of the recursive search |
| `max_flow.dfy` | `MaxFlow` | the DFS over a `parent` array, the bottleneck, the augmentation of the residual matrix, the outer loop, and `indexToChar` |
| `floyd_warshall.dfy` | `FloydWarshall` | the distance matrix (an `array2`), the triple relaxation loop and the threshold count; `Shortest` is the textbook recurrence, with walks as its reference |
| `kmp.dfy` | `Kmp` | the LPS table and the search |
| `palindromes.dfy` | `Palindromes` | palindromes, radii in the `#`-interleaved string and how they map back; shared by both Manacher variants |
| `sentinel_manacher.dfy` | `SentinelManacher` | `findLongestPalindrome` of the transmission analysis |
| `guarded_manacher.dfy` | `GuardedManacher` | `Solution::longestPalindrome` |
| `common_substring.dfy` | `CommonSubstring` | the `dp` table (an `array2`) and the best-so-far cursors |
| `string_hash.dfy` | `StringHash` | `computeStringHash` / `computeHash` with their unsigned 64-bit wrap-around, and the duplicate scan of both `main`s |
| `merge_sort.dfy` | `MergeSort` | `merge` and `mergeSort` on an array of reals |
| `coin_change.dfy` | `CoinChange` | `GreedyApproach`: the in-place descending sort, then the greedy counting loop |
| `knapsack.dfy` | `Knapsack` | the naive recursion as written, and the best value over all choices of items |
| `knapsack_memo.dfy` | `KnapsackMemo` | `initialize_memo` and the memoised recursion over an `array2` table |
| `annealing.dfy` | `Annealing` | the distance matrix fill, tour length, initial tour, neighbour move, acceptance and best-so-far tracking |

The two hash files compute the same function with different names: `computeStringHash` in `A01254831_A01252916Act2.1/main.cpp` and `computeHash` in `A01254831_Act2.1/main.cpp`. They also run the same scan in `main`. One model covers both. The rows below cite whichever file the member was read against.

Where the source uses machine integers:

- Sentinels and overflow are replaced by unbounded integers and `Bound`.
- The hash keeps its 64-bit arithmetic explicitly, because the wrap-around is observable there.

## Model

| member | source | states |
|---|---|---|
| UnionFind.DisjointSets.constructor | Integrity_Activity_2/main.cpp:36-43 | every node is its own parent with rank 0, so there are exactly `n` sets, one per node |
| UnionFind.Root | Integrity_Activity_2/main.cpp:46-52 | following parents from `x` ends at a node that is its own parent; ranks never fall along the way, which bounds the walk; `x` is its own root exactly when it is its own parent |
| UnionFind.DisjointSets.Find | Integrity_Activity_2/main.cpp:46-52 | returns the root of `x` with `parent[r] == r`; path compression leaves `parent[x] == r`, ranks untouched, every node's root unchanged and the set of roots unchanged |
| UnionFind.CompressKeepsRoot | Integrity_Activity_2/main.cpp:49-50 | pointing `x` straight at its root keeps a forest and keeps the root of every node |
| UnionFind.CompressKeepsRoots | Integrity_Activity_2/main.cpp:49-50 | the same for all nodes at once: same roots, same set of roots |
| UnionFind.DisjointSets.Unite | Integrity_Activity_2/main.cpp:55-73 | afterwards `x` and `y` have the same root; exactly their two sets merge and all other nodes keep their roots; when the roots were equal, nothing observable changes; otherwise there is one set fewer; a rank changes only by growing on an equal-rank tie |
| UnionFind.DisjointSets.Link | Integrity_Activity_2/main.cpp:63-72 | the lower-ranked root (on a tie `rootY`) is hung under the other; only the two sets merge, one root disappears, and only the tie raises a rank, by one |
| UnionFind.LinkMovesSet | Integrity_Activity_2/main.cpp:63-72 | hanging root `a` under root `b` moves exactly the nodes rooted at `a` to `b`, keeps a forest, and removes `a` from the roots |
| UnionFind.LinkMovesOneSet | Integrity_Activity_2/main.cpp:63-72 | the same, node by node, by induction on rank |
| UnionFind.LinkRoots | Integrity_Activity_2/main.cpp:63-72 | linking two distinct roots merges their sets and strictly shrinks the set of roots by one |
| UnionFind.LinkMerges | Integrity_Activity_2/main.cpp:57-72 | linking the roots found for `x` and `y` merges the original sets of `x` and `y` |
| UnionFind.MergeAfterFinds | Integrity_Activity_2/main.cpp:57-72 | two root-preserving finds followed by a merge of the found roots merge the sets of `x` and `y` |
| UnionFind.SameRootsMerge | Integrity_Activity_2/main.cpp:60-61 | when `x` and `y` already share a root, a root-preserving change counts as merging their sets |
| UnionFind.SameRootsTransitive | Integrity_Activity_2/main.cpp:57-58 | two root-preserving steps in a row preserve roots |
| UnionFind.Nodes | Integrity_Activity_2/main.cpp:36-43 | the nodes `0..n-1` form a set of exactly `n` elements |
| Kruskal.CandidateEdges | Integrity_Activity_2/main.cpp:82-92 | exactly the pairs `i < j` with `graph[i][j] > 0` are collected, in row-major order |
| Kruskal.SortByWeight | Integrity_Activity_2/main.cpp:95-96 | the edges come out in non-decreasing weight order and as a permutation of the input |
| Kruskal.InsertKeepsSorted | Integrity_Activity_2/main.cpp:95-96 | inserting an edge by weight into a sorted list keeps it sorted |
| Kruskal.InsertAddsOne | Integrity_Activity_2/main.cpp:95-96 | inserting adds exactly that edge to the multiset of edges |
| Kruskal.SameRootsKeepEdges | Integrity_Activity_2/main.cpp:105 | finds, which keep every root, keep every kept edge inside one set |
| Kruskal.MergeKeepsEdges | Integrity_Activity_2/main.cpp:107 | merging two sets keeps every kept edge inside one set |
| Kruskal.PathStaysInSet | Integrity_Activity_2/main.cpp:102-110 | a path over kept edges never leaves the set it starts in |
| Kruskal.DifferentSetsNotConnected | Integrity_Activity_2/main.cpp:105 | nodes in different sets are not connected by the kept edges, so the new edge closes no cycle |
| Kruskal.AcyclicExtend | Integrity_Activity_2/main.cpp:105-108 | adding an edge between unconnected nodes to an acyclic edge list keeps it acyclic |
| Kruskal.KeepIfNoCycle | Integrity_Activity_2/main.cpp:104-109 | an edge is appended exactly when its ends had different roots; the edges stay acyclic and inside the sets; kept edges plus sets stay constant |
| Kruskal.KeptSoFarStep | Integrity_Activity_2/main.cpp:102-110 | after each scanned edge the kept edges are candidates, in weight order |
| Kruskal.ConnectedGrows | Integrity_Activity_2/main.cpp:108 | a walk along the kept edges remains one when an edge is kept |
| Kruskal.ConnectedJoin | Integrity_Activity_2/main.cpp:102-110 | two walks along the kept edges that meet join into one |
| Kruskal.SameRootsKeepConnected | Integrity_Activity_2/main.cpp:105 | finds, which keep every root, keep every set joined by the kept edges |
| Kruskal.MergeConnects | Integrity_Activity_2/main.cpp:105-108 | uniting the sets of an edge's ends and keeping the edge leaves every set joined by the kept edges |
| Kruskal.SingletonsConnected | Integrity_Activity_2/main.cpp:98 | the fresh structure's one-node sets need no edge to be joined |
| Kruskal.CandidatesConnected | Integrity_Activity_2/main.cpp:102-110 | once every candidate lies within one set, the kept edges join the ends of every candidate |
| Kruskal.ScanNext | Integrity_Activity_2/main.cpp:104-109 | scanning the next sorted candidate keeps it exactly when its ends had different roots, and keeps the kept edges candidates in weight order, acyclic, inside the sets and joining each set, with every scanned edge inside one set |
| Kruskal.KruskalMst | Integrity_Activity_2/main.cpp:77-112 | every returned edge is a candidate pair; the result is sorted by weight and acyclic, has at most `numNodes - 1` edges, is empty without nodes, and spans the graph: the ends of every candidate edge are joined by a walk along the result |
| BruteForceTsp.TspSearch.constructor | Integrity_Activity_2/main.cpp:267-273 | the search starts with no best route (cost infinity), only the start visited, and the path `[start]` |
| BruteForceTsp.TspSearch.Tsp | Integrity_Activity_2/main.cpp:119-153 | on return `visited` and `currentPath` are as before; the best cost never increases and the recorded route keeps its cost; the best cost is at most the cycle cost of every route extending the current path |
| BruteForceTsp.TspSearch.CloseCycle | Integrity_Activity_2/main.cpp:122-133 | a complete path is closed back to the start and recorded only when strictly cheaper; afterwards the best covers that route |
| BruteForceTsp.TspSearch.Extend | Integrity_Activity_2/main.cpp:138-152 | choosing `i`, recursing and backtracking restores `visited` and `currentPath` and covers every route continuing with `i` |
| BruteForceTsp.TspSearch.Choose | Integrity_Activity_2/main.cpp:141-143 | marks `i` visited and appends it to the path |
| BruteForceTsp.TspSearch.Backtrack | Integrity_Activity_2/main.cpp:149-151 | drops the last node of the path and unmarks `i` |
| BruteForceTsp.PushNode | Integrity_Activity_2/main.cpp:141-143 | appending an unvisited node keeps the path valid and adds exactly the edge to it to the cost |
| BruteForceTsp.ChoiceCovered | Integrity_Activity_2/main.cpp:136-152 | covering the routes through `prefix + [i]` covers the routes whose next node is `i` |
| BruteForceTsp.NextNotOnPrefix | Integrity_Activity_2/main.cpp:138 | a route's next node after a prefix is not on the prefix, so it is unvisited |
| BruteForceTsp.OthersFrom | Integrity_Activity_2/main.cpp:136 | the nodes from `k` up, without the start, in increasing order |
| BruteForceTsp.RouteExists | Integrity_Activity_2/main.cpp:119-153 | for `0 <= start < n` some route from `start` visits every node once, so a best route is found |
| BruteForceTsp.ShortestRoute | Integrity_Activity_2/main.cpp:267-274 | the recorded route is a permutation of `0..n-1` starting at the start node, its cost is its closed-cycle cost, and no such route is cheaper |
| MaxFlow.Dfs | Integrity_Activity_2/main.cpp:157-173 | marks only unmarked nodes, reached along positive residual edges; returns true exactly when the sink got marked; on false every marked node's positive edges lead to marked nodes |
| MaxFlow.VisitStep | Integrity_Activity_2/main.cpp:165-167 | marking `next` from `current` keeps the search tree, shrinks the unmarked nodes and keeps the closure bookkeeping |
| MaxFlow.VisitKeepsTree | Integrity_Activity_2/main.cpp:165-167 | a newly marked node hangs off a marked node by a positive residual edge |
| MaxFlow.FreshSearch | Integrity_Activity_2/main.cpp:183-184 | resetting `parent` to -1 and marking the source with -2 starts a valid search with the sink unmarked |
| MaxFlow.SearchLeavesCut | Integrity_Activity_2/main.cpp:187-188 | when the search fails, the marked nodes form a cut: the source in, the sink out, no positive residual edge leaving |
| MaxFlow.ClosedStays | Integrity_Activity_2/main.cpp:162-171 | a node whose edges all lead to marked nodes stays so as more nodes are marked |
| MaxFlow.ClosedUpToStep | Integrity_Activity_2/main.cpp:162-171 | after looking at `next`, the edges up to `next` lead to marked nodes |
| MaxFlow.ClosedExceptStays | Integrity_Activity_2/main.cpp:162-171 | marking more nodes keeps every node closed except those still being explored |
| MaxFlow.MarksGrowTransitive | Integrity_Activity_2/main.cpp:162-171 | marks are never removed over several steps |
| MaxFlow.GrowingShrinksUnvisited | Integrity_Activity_2/main.cpp:162-171 | adding marks can only shrink the unmarked nodes, which bounds the recursion |
| MaxFlow.PathBack | Integrity_Activity_2/main.cpp:192-194 | following `parent` from a marked node reaches the source along positive residual edges without repeating a node |
| MaxFlow.ChainCons | Integrity_Activity_2/main.cpp:192-194 | one more step back along `parent` extends such a chain |
| MaxFlow.Bottleneck | Integrity_Activity_2/main.cpp:191-196 | the flow is positive, at most every residual capacity on the path from sink to source, and equal to one of them |
| MaxFlow.AugmentPath | Integrity_Activity_2/main.cpp:199-204 | every entry from a parent to its child on the path loses the flow, the entry back gains it, and every other entry is unchanged; so pair sums stay equal, entries stay at least their minimum, and row sums shift only at source and sink |
| MaxFlow.AugmentedStep | Integrity_Activity_2/main.cpp:199-204 | on a path without repeated nodes, pushing along one more step changes exactly that step's two entries, since neither pair was a step before |
| MaxFlow.PushEdge | Integrity_Activity_2/main.cpp:201-203 | the two assignments give `Push`: the forward entry less the flow, then the reverse entry plus it |
| MaxFlow.AugmentStep | Integrity_Activity_2/main.cpp:199-204 | one edge of the path is updated and the untouched rows are still the original ones |
| MaxFlow.PushEntries | Integrity_Activity_2/main.cpp:202-203 | pushing a positive flow no larger than the capacity keeps `r[u][v] + r[v][u]` and keeps every entry at least its lower bound |
| MaxFlow.PushAt | Integrity_Activity_2/main.cpp:202-203 | the pushed matrix differs from the old one only at `(u, v)`, less the flow, and at `(v, u)`, plus the flow |
| MaxFlow.PushRowSums | Integrity_Activity_2/main.cpp:202-203 | pushing along `u -> v` moves the row-sum change from `v` to `u` and touches no other row |
| MaxFlow.SumUpdate | Integrity_Activity_2/main.cpp:202-203 | changing one entry by `d` changes the row sum by `d` |
| MaxFlow.AugmentKeepsInvariant | Integrity_Activity_2/main.cpp:198-206 | augmenting by `flow` keeps the flow invariant with the total raised by `flow` |
| MaxFlow.SourceRowBound | Integrity_Activity_2/main.cpp:177-206 | under the invariant the source row's residual sum never falls below the sum of its negative capacities |
| MaxFlow.SumSplits | Integrity_Activity_2/main.cpp:178 | a row sum is its positive part plus its negative part |
| MaxFlow.SumAtLeastNegative | Integrity_Activity_2/main.cpp:178 | a row with entries at least `min(0, capacity)` sums to at least the negative part of the capacities |
| MaxFlow.MaxFlow | Integrity_Activity_2/main.cpp:175-208 | for `source != sink` the loop ends; the total flow is between 0 and the source's outgoing capacity, the residual keeps the flow invariant, and the final search leaves a cut |
| MaxFlow.IndexToChar | Integrity_Activity_2/main.cpp:212-215 | the index counts letters from `'A'` |
| FloydWarshall.InitializeDistances | FloydsWarro/smallNumOfNeig.cpp:12-26 | each entry is the weight of the last edge joining the pair in either direction, 0 on the diagonal without one, infinity otherwise |
| FloydWarshall.LastEdgeWins | FloydsWarro/smallNumOfNeig.cpp:21-26 | a later edge for the same pair overwrites an earlier one; with no edge the diagonal is 0 and the rest infinity |
| FloydWarshall.InitialSymmetric | FloydsWarro/smallNumOfNeig.cpp:24-25 | every edge sets both directions, so the initial matrix is symmetric |
| FloydWarshall.InitialNonNegative | FloydsWarro/smallNumOfNeig.cpp:12-26 | with non-negative weights every initial entry is non-negative |
| FloydWarshall.InitialMatrix | FloydsWarro/smallNumOfNeig.cpp:12 | the initial matrix is `n` by `n` |
| FloydWarshall.Add | FloydsWarro/smallNumOfNeig.cpp:35-38 | a sum is finite exactly when both addends are, and is then their sum; infinity is never added |
| FloydWarshall.MinBound | FloydsWarro/smallNumOfNeig.cpp:36-38 | the relaxed value is at most both candidates and is one of them |
| FloydWarshall.RelaxCell | FloydsWarro/smallNumOfNeig.cpp:35-39 | relaxing cell `(i, j)` in round `k` sets it to its shortest distance through `0..k` and leaves round `k` on track |
| FloydWarshall.AllPairsShortest | FloydsWarro/smallNumOfNeig.cpp:29-42 | afterwards each entry is the shortest distance through any intermediate of the initial matrix |
| FloydWarshall.StableThroughK | FloydsWarro/smallNumOfNeig.cpp:33-38 | row `k` and column `k` do not change in round `k`, which makes the in-place update sound |
| FloydWarshall.ShortestDecreases | FloydsWarro/smallNumOfNeig.cpp:35-38 | entries only ever decrease from round to round |
| FloydWarshall.ShortestNonNegative | FloydsWarro/smallNumOfNeig.cpp:29-42 | with non-negative weights every distance stays non-negative |
| FloydWarshall.ShortestIsAchieved | FloydsWarro/smallNumOfNeig.cpp:29-42 | a finite distance after round `k` is the length of some walk with intermediates in `0..k-1` |
| FloydWarshall.ShortestIsMinimal | FloydsWarro/smallNumOfNeig.cpp:29-42 | no walk with intermediates in `0..k-1` is shorter than the distance after round `k` |
| FloydWarshall.ThroughLast | FloydsWarro/smallNumOfNeig.cpp:35-38 | going through node `k-1` costs at least the distance after round `k` |
| FloydWarshall.JoinThrough | FloydsWarro/smallNumOfNeig.cpp:35-38 | joining walks `i -> k` and `k -> j` gives a walk through `k` whose length is the sum |
| FloydWarshall.WalkLengthJoin | FloydsWarro/smallNumOfNeig.cpp:35-38 | the length of a joined walk is the sum of the lengths |
| FloydWarshall.SplitWalk | FloydsWarro/smallNumOfNeig.cpp:35-38 | a walk splits at any inner node into two shorter walks |
| FloydWarshall.AddMonotone | FloydsWarro/smallNumOfNeig.cpp:35-38 | adding is monotone in both arguments, infinity included |
| FloydWarshall.CountReachable | FloydsWarro/smallNumOfNeig.cpp:48-57 | the count is the number of other cities `j` with `dist[i][j] <= threshold`, so it is below `n` |
| FloydWarshall.SelectCity | FloydsWarro/smallNumOfNeig.cpp:45-72 | for `n > 0` a city with the fewest reachable cities, the largest index among ties; -1 for `n == 0` |
| FloydWarshall.FindTheCity | FloydsWarro/smallNumOfNeig.cpp:9-73 | the same, stated about the shortest distances of the edge list |
| FloydWarshall.Contents | FloydsWarro/smallNumOfNeig.cpp:12 | the matrix as a sequence of rows, entry for entry |
| FloydWarshall.SameMatrix | FloydsWarro/smallNumOfNeig.cpp:12 | two `n`-by-`n` matrices with equal entries are equal |
| FloydWarshall.Distances | FloydsWarro/smallNumOfNeig.cpp:29-42 | the shortest distances of an edge list form an `n`-by-`n` matrix |
| Kmp.BuildLps | A01254831_a01252916_ActInt1/TransmissionAnalysis.cpp:28-47 | `lps[i]` is the length of the longest proper prefix of `pattern[..i+1]` that is also its suffix |
| Kmp.BorderExtend | A01254831_a01252916_ActInt1/TransmissionAnalysis.cpp:35-37 | a border followed by a matching character extends to a border one longer |
| Kmp.BorderShrink | A01254831_a01252916_ActInt1/TransmissionAnalysis.cpp:35-37 | every non-empty border of a prefix one longer is a border of the shorter prefix extended by a matching character |
| Kmp.BorderOfBorder | A01254831_a01252916_ActInt1/TransmissionAnalysis.cpp:39-41 | the shorter borders of a prefix are exactly the borders of its border, which justifies `length = lps[length - 1]` |
| Kmp.ExtendIsLongest | A01254831_a01252916_ActInt1/TransmissionAnalysis.cpp:35-37 | when no longer border extends, the extended one is the longest |
| Kmp.NoneIsLongest | A01254831_a01252916_ActInt1/TransmissionAnalysis.cpp:43-46 | when even the empty border does not extend, the longest border is empty |
| Kmp.FallBack | A01254831_a01252916_ActInt1/TransmissionAnalysis.cpp:39-41 | falling back to the border of the border loses no candidate |
| Kmp.MatchStep | A01254831_a01252916_ActInt1/TransmissionAnalysis.cpp:52-54 | a matching character extends the matched prefix by one |
| Kmp.Mismatch | A01254831_a01252916_ActInt1/TransmissionAnalysis.cpp:52-67 | a mismatch rules out a match at the current alignment |
| Kmp.ShiftSkips | A01254831_a01252916_ActInt1/TransmissionAnalysis.cpp:60-63 | shifting by the LPS entry keeps the matched prefix and skips no match |
| Kmp.MatchIsBorder | A01254831_a01252916_ActInt1/TransmissionAnalysis.cpp:60-63 | a match starting inside the matched prefix would make a border of it |
| Kmp.Search | A01254831_a01252916_ActInt1/TransmissionAnalysis.cpp:21-70 | returns the leftmost index where the pattern occurs, -1 exactly when it occurs nowhere, and 0 for an empty pattern |
| Palindromes.MirrorBound | A01254831_a01252916_ActInt1/TransmissionAnalysis.cpp:88-92 | inside a palindrome around `C`, the mirror's radius capped at `R - i` is a palindrome radius at `i`, so the shortcut never overestimates |
| Palindromes.RadiusAtMost | A01254831_a01252916_ActInt1/TransmissionAnalysis.cpp:93-96 | every palindrome radius is at most the maximal one |
| Palindromes.MaxRadiusOnSeparator | A01254831_a01252916_ActInt1/TransmissionAnalysis.cpp:114 | a maximal palindrome of the interleaved string starts and ends on a separator |
| Palindromes.Sound | A01254831_a01252916_ActInt1/TransmissionAnalysis.cpp:114-115 | a radius `r` at centre `i` gives a palindromic substring of length `r` starting at `(i - r) / 2` in the original string |
| Palindromes.Complete | A01254831_a01252916_ActInt1/TransmissionAnalysis.cpp:75-80 | every palindromic substring of length `b - a` shows up as a radius `b - a` in the interleaved string |
| Palindromes.RadiusCoversPalindrome | A01254831_a01252916_ActInt1/TransmissionAnalysis.cpp:104-112 | no palindromic substring is longer than the maximal radius at its centre |
| Palindromes.ScanFindsLongest | A01254831_a01252916_ActInt1/TransmissionAnalysis.cpp:104-115 | the first centre of maximal radius gives the longest palindrome, and the leftmost of that length |
| Palindromes.NoneLonger | A01254831_a01252916_ActInt1/TransmissionAnalysis.cpp:104-112 | when every radius is at most `len`, no palindromic substring is longer |
| Palindromes.NoneEarlier | A01254831_a01252916_ActInt1/TransmissionAnalysis.cpp:107-111 | when every earlier radius is below `len`, no palindrome of length `len` starts earlier |
| SentinelManacher.Transform | A01254831_a01252916_ActInt1/TransmissionAnalysis.cpp:75-80 | `T` is `^`, then `#c` for each character, then `#$` |
| SentinelManacher.SentinelsAtEnds | A01254831_a01252916_ActInt1/TransmissionAnalysis.cpp:75-80 | without `^` and `$` in the input, they occur only at the two ends of `T` |
| SentinelManacher.SentinelsBound | A01254831_a01252916_ActInt1/TransmissionAnalysis.cpp:93-96 | so no palindrome of `T` reaches a sentinel, and the unguarded expansion stays inside `T` |
| SentinelManacher.Expand | A01254831_a01252916_ActInt1/TransmissionAnalysis.cpp:93-96 | expansion ends at the maximal radius at `i` and changes no other entry |
| SentinelManacher.ComputeRadii | A01254831_a01252916_ActInt1/TransmissionAnalysis.cpp:82-102 | `P[i]` is the maximal palindrome radius of `T` at every inner centre |
| SentinelManacher.PickCentre | A01254831_a01252916_ActInt1/TransmissionAnalysis.cpp:104-112 | `maxLen` is the largest radius and `centerIndex` its first centre, or 0 when all are 0 |
| SentinelManacher.FindLongestPalindrome | A01254831_a01252916_ActInt1/TransmissionAnalysis.cpp:73-116 | `(start, end)` spans the longest palindromic substring, leftmost among equals; `(0, -1)` for an empty string |
| GuardedManacher.Transform | manachersAlgorithm.cpp:15-20 | `t` has length `2|s| + 1`, `#` at even indices and `s[k]` at index `2k + 1` |
| GuardedManacher.Expand | manachersAlgorithm.cpp:44-47 | the guarded expansion stays inside `t` and ends at the maximal radius |
| GuardedManacher.SeedAndExpand | manachersAlgorithm.cpp:32-47 | seeding from the mirror and expanding gives the maximal radius at `i` |
| GuardedManacher.LongestPalindrome | manachersAlgorithm.cpp:9-67 | the result is the leftmost longest palindromic substring; it is non-empty for non-empty input and `""` for empty input |
| CommonSubstring.SuffixStep | A01254831_a01252916_ActInt1/TransmissionAnalysis.cpp:129-131 | the longest common suffix at `(i, j)` is the one at `(i-1, j-1)` plus one when the characters agree, and 0 otherwise |
| CommonSubstring.Shorten | A01254831_a01252916_ActInt1/TransmissionAnalysis.cpp:129-131 | a non-empty common ending shortens to one ending a character earlier |
| CommonSubstring.EmptyPrefix | A01254831_a01252916_ActInt1/TransmissionAnalysis.cpp:122 | row 0 and column 0 of the table are 0 |
| CommonSubstring.BestStep | A01254831_a01252916_ActInt1/TransmissionAnalysis.cpp:132-136 | only a strictly longer common suffix moves the best, so the earliest end is kept |
| CommonSubstring.Store | A01254831_a01252916_ActInt1/TransmissionAnalysis.cpp:131 | storing the cell keeps the table filled up to it |
| CommonSubstring.Skip | A01254831_a01252916_ActInt1/TransmissionAnalysis.cpp:129 | a mismatch leaves the 0 that is already correct |
| CommonSubstring.FillRow | A01254831_a01252916_ActInt1/TransmissionAnalysis.cpp:127-138 | one row of the table is filled, and the best so far covers it |
| CommonSubstring.LongestCommonSubstring | A01254831_a01252916_ActInt1/TransmissionAnalysis.cpp:119-142 | 1-based inclusive positions in `s1` of a longest substring also in `s2`, ending as early as possible; `(1, 0)` when nothing is common |
| StringHash.ComputeStringHash | A01254831_A01252916Act2.1/main.cpp:52-68 | the running hash and the power `31^i mod (1e9+7)` match the hash of the prefix read so far; the hash is below `1e9+7` |
| StringHash.HashBound | A01254831_Act2.1/main.cpp:24-37 | every hash is below `1e9+7` |
| StringHash.EmptyHash | A01254831_Act2.1/main.cpp:26-36 | the empty string hashes to 0 |
| StringHash.PowStep | A01254831_Act2.1/main.cpp:27-33 | the reduced power times 31, reduced, is `31^(i+1) mod (1e9+7)` |
| StringHash.HashIsPolynomial | A01254831_Act2.1/main.cpp:30-34 | for bytes from '`' to 127 (the lowercase letters among them) the hash is `Σ (c_i - 'a' + 1)·31^i mod (1e9+7)` |
| StringHash.NoWrap | A01254831_Act2.1/main.cpp:32 | for such digits the 64-bit operations never wrap |
| StringHash.UppercaseWraps | A01254831_A01252916Act2.1/main.cpp:62 | a character below '`' has a negative digit, which wraps modulo 2^64 first: "A" hashes to 582343977, not to -31 mod (1e9+7) |
| StringHash.BacktickCollides | A01254831_Act2.1/main.cpp:32 | '`' has digit 0, so the different strings "a" and "a`" share the hash 1 |
| StringHash.SignedChar | A01254831_A01252916Act2.1/main.cpp:59 | a `char` holds -128 to 127 |
| StringHash.Wrap | A01254831_A01252916Act2.1/main.cpp:62 | a value converted to `unsigned long long` lies in `[0, 2^64)` |
| StringHash.InHashesOf | A01254831_A01252916Act2.1/main.cpp:93-110 | a hash is in the set after `k` strings exactly when one of the first `k` strings has it |
| StringHash.AllDistinct | A01254831_A01252916Act2.1/main.cpp:93-114 | "distinct" exactly when all hashes differ; equal strings always give "not distinct"; the scan stops at the first string whose hash was seen |
| MergeSort.MergeRuns | A01254831-A0125xxxx_Act1.1/MergeSort.cpp:9-57 | `arr[left..right]` becomes the descending merge of the two old halves, left first on ties, and nothing outside changes |
| MergeSort.MergeSorted | A01254831-A0125xxxx_Act1.1/MergeSort.cpp:27-56 | merging two descending runs gives a descending run |
| MergeSort.MergePermutes | A01254831-A0125xxxx_Act1.1/MergeSort.cpp:19-56 | the merge is a permutation of the two halves together |
| MergeSort.MergeLength | A01254831-A0125xxxx_Act1.1/MergeSort.cpp:24-56 | the merge has as many elements as the two halves |
| MergeSort.MergeBounded | A01254831-A0125xxxx_Act1.1/MergeSort.cpp:27-56 | a merge of runs bounded by `x` is bounded by `x` |
| MergeSort.SortedCons | A01254831-A0125xxxx_Act1.1/MergeSort.cpp:27-40 | a value at least every element of a descending run can go in front |
| MergeSort.TakeLeft | A01254831-A0125xxxx_Act1.1/MergeSort.cpp:29-33 | on `L[i] >= R[j]` the next merged element is `L[i]` |
| MergeSort.TakeRight | A01254831-A0125xxxx_Act1.1/MergeSort.cpp:34-38 | otherwise it is `R[j]` |
| MergeSort.CopyOut | A01254831-A0125xxxx_Act1.1/MergeSort.cpp:19-22 | the temporaries copy their half of the array |
| MergeSort.Put | A01254831-A0125xxxx_Act1.1/MergeSort.cpp:31 | writing `arr[k]` keeps the merged prefix in place and the rest untouched |
| MergeSort.MergeWhileBoth | A01254831-A0125xxxx_Act1.1/MergeSort.cpp:27-40 | the first loop places merged elements until one temporary is used up |
| MergeSort.DrainLeft | A01254831-A0125xxxx_Act1.1/MergeSort.cpp:43-48 | leftover left elements complete the merge |
| MergeSort.DrainRight | A01254831-A0125xxxx_Act1.1/MergeSort.cpp:51-56 | leftover right elements complete the merge |
| MergeSort.Filled | A01254831-A0125xxxx_Act1.1/MergeSort.cpp:24-56 | once every slot is written the range holds the merge |
| MergeSort.Combine | A01254831-A0125xxxx_Act1.1/MergeSort.cpp:69-74 | sorting both halves and merging leaves the range sorted, a permutation of the old range, and the rest unchanged |
| MergeSort.MergeSortRange | A01254831-A0125xxxx_Act1.1/MergeSort.cpp:62-76 | `arr[left..right]` ends sorted descending and a permutation of its old contents; nothing outside changes; `left >= right` changes nothing |
| MergeSort.Sort | A01254831-A0125xxxx_Act1.1/MergeSort.cpp:95 | the whole array ends sorted descending and a permutation of its old contents |
| CoinChange.GreedyApproach | A02543831-A01252916_Act1.2/main.cpp:22-51 | the caller's denominations end sorted descending and as a permutation of the old ones; the result holds the greedy counts for them |
| CoinChange.SortDescending | A02543831-A01252916_Act1.2/main.cpp:30 | sorts in place into descending order as a permutation |
| CoinChange.InsertStart | A02543831-A01252916_Act1.2/main.cpp:30 | a descending prefix can start inserting its next element |
| CoinChange.InsertStep | A02543831-A01252916_Act1.2/main.cpp:30 | swapping with a smaller left neighbour moves the inserted element one step left |
| CoinChange.InsertDone | A02543831-A01252916_Act1.2/main.cpp:30 | once the left neighbour is not smaller the prefix is sorted |
| CoinChange.SwapNext | A02543831-A01252916_Act1.2/main.cpp:30 | exchanges two neighbours, a permutation |
| CoinChange.CountCoins | A02543831-A01252916_Act1.2/main.cpp:32-46 | one count per denomination, each the greedy count for the change left at that step |
| CoinChange.Repeat | A02543831-A01252916_Act1.2/main.cpp:41-45 | the inner loop takes `change / unit` coins of a positive unit (none for negative change) and leaves the rest |
| CoinChange.GreedyUnfold | A02543831-A01252916_Act1.2/main.cpp:36-45 | the counts from step `i` are this step's count, then the counts of what is left |
| CoinChange.Take | A02543831-A01252916_Act1.2/main.cpp:41-45 | never a negative number of coins |
| CoinChange.GreedyCounts | A02543831-A01252916_Act1.2/main.cpp:32 | one count per denomination |
| CoinChange.TakeBounds | A02543831-A01252916_Act1.2/main.cpp:41-45 | what is left after one denomination is below it, at most the change, and not negative for non-negative change |
| CoinChange.Accounts | A02543831-A01252916_Act1.2/main.cpp:36-46 | the value of the coins handed out plus the leftover is the original change |
| CoinChange.LeftoverBounds | A02543831-A01252916_Act1.2/main.cpp:36-46 | the leftover is at most the change, below every denomination, and not negative for non-negative change |
| CoinChange.SmallChangeNoCoins | A02543831-A01252916_Act1.2/main.cpp:41 | change below every denomination, negative change included, gets all-zero counts |
| CoinChange.Quotient | A02543831-A01252916_Act1.2/main.cpp:41-45 | counting down by `unit` computes the integer quotient |
| Knapsack.BestIsUpperBound | knapSack/knapSack.py:4-15 | no choice of the first `n` items that fits into `c` is worth more than `Best` |
| Knapsack.BestIsAchieved | knapSack/knapSack.py:4-15 | some choice of the first `n` items that fits into `c` is worth exactly `Best` |
| Knapsack.AgreesWithPositiveWeights | knapSack/knapSack.py:4-15 | with positive weights the recursion as written computes `Best`, the optimum |
| Knapsack.ZeroCapacityWithPositiveWeights | knapSack/knapSack.py:6-7 | with positive weights nothing fits into capacity 0, so returning 0 there is right |
| Knapsack.ZeroCapacityMissesFreeItem | knapSack/knapSack.py:6-7 | with capacity 0 the recursion returns 0 although an item of weight 0 and value 5 fits |
| Knapsack.TotalNonNegative | knapSack/knapSack.py:4-15 | a choice among items of non-negative weight weighs at least 0 |
| Knapsack.TotalAppend | knapSack/knapSack.py:13-14 | choosing one more item adds its weight or value only when chosen |
| Knapsack.Max | knapSack/knapSack.py:15 | the larger of the two options |
| KnapsackMemo.InitializeMemo | knapSack/KnapSack_dp.py:2-3 | a fresh `(n+1)` by `(C+1)` table with nothing solved |
| KnapsackMemo.Knapsack | knapSack/KnapSack_dp.py:5-34 | returns the naive recursion's value and stores it at `arr[n][C]`; every solved entry equals the naive value and never changes; a solved `(n, C)` leaves the table untouched |
| KnapsackMemo.MaxValue | knapSack/KnapSack_dp.py:43-46 | a fresh table gives exactly the naive recursion's value |
| Annealing.ReadDistances | A01254831-A01252916_Act5.7/main.cpp:85-94 | the matrix is symmetric with a zero diagonal and holds the distance of every pair `i < j` |
| Annealing.CalculateTotalTourDistance | A01254831-A01252916_Act5.7/main.cpp:99-110 | the sum of consecutive edges plus the closing edge back to the first city |
| Annealing.PathAppend | A01254831-A01252916_Act5.7/main.cpp:103-106 | extending a path by one city adds that edge |
| Annealing.OneCity | A01254831-A01252916_Act5.7/main.cpp:99-110 | a one-city tour has length 0 |
| Annealing.GenerateInitialTour | A01254831-A01252916_Act5.7/main.cpp:114-122 | the tour is the identity tour after the drawn swaps (`Shuffled`), a permutation of `0..n-1` |
| Annealing.Reverse | A01254831-A01252916_Act5.7/main.cpp:146 | the reversal holds the elements in mirrored order |
| Annealing.ReverseSegmentAt | A01254831-A01252916_Act5.7/main.cpp:146 | the neighbour equals the tour outside `[A, B]` and is its reversal inside |
| Annealing.ReverseSegmentPermutes | A01254831-A01252916_Act5.7/main.cpp:146 | reversing a segment of a permutation gives a permutation |
| Annealing.ReversePathLength | A01254831-A01252916_Act5.7/main.cpp:85-94 | on a symmetric matrix a reversed path is as long as the path |
| Annealing.ReverseTourLength | A01254831-A01252916_Act5.7/main.cpp:99-110 | on a symmetric matrix a reversed tour is as long as the tour |
| Annealing.Neighbour | A01254831-A01252916_Act5.7/main.cpp:126-147 | the neighbour of a permutation is a permutation |
| Annealing.GenerateNeighborTour | A01254831-A01252916_Act5.7/main.cpp:126-147 | re-draws the second position until it differs, orders the two and reverses the segment between them |
| Annealing.Reversed | A01254831-A01252916_Act5.7/main.cpp:146 | the in-place reversal computes the segment reversal |
| Annealing.AcceptanceProbability | A01254831-A01252916_Act5.7/main.cpp:151-158 | 1.0 for a strictly shorter neighbour, the exponential term otherwise |
| Annealing.ShorterAccepted | A01254831-A01252916_Act5.7/main.cpp:194-201 | a strictly shorter neighbour is always accepted, since the draw lies in `[0, 1)` |
| Annealing.NextTour | A01254831-A01252916_Act5.7/main.cpp:190-202 | the tour after one iteration, the neighbour when accepted and the current tour otherwise, is a permutation |
| Annealing.AnnealStep | A01254831-A01252916_Act5.7/main.cpp:190-208 | the new current tour is `NextTour`; both tours stay permutations with their lengths recorded and the best at most the current; the best becomes the current tour exactly when that is strictly shorter, and is left as it was otherwise |
| Annealing.FirstShortestExtend | A01254831-A01252916_Act5.7/main.cpp:204-208 | replacing the best by a newly visited tour exactly when it is strictly shorter keeps the best the first visited tour that none is shorter than |
| Annealing.TrajectoryExtend | A01254831-A01252916_Act5.7/main.cpp:188-214 | recording the tour after the next iteration extends the run's trajectory by one |
| Annealing.PerformSimulatedAnnealing | A01254831-A01252916_Act5.7/main.cpp:162-220 | the ghost list of visited tours starts with the shuffled tour and follows `NextTour` move by move; the best tour is the first of them that none is shorter than, and its recorded distance is its tour length |
| Annealing.OneCityRedrawsForever | A01254831-A01252916_Act5.7/main.cpp:131-137 | with one city every drawn position equals the first, so no run of draws ends the re-draw loop |
| Annealing.SimulatedAnnealing | A01254831-A01252916_Act5.7/main.cpp:162-220 | with one city the best tour is that city, of length 0; from two cities on, as `PerformSimulatedAnnealing` |

## Left out

- Input and output are not modelled:
  - file and stream reading, argument checks, the coordinate parsing and all printing;
  - instead, inputs are parameters: matrices as sequences or arrays, strings as sequences, the hashed strings as a sequence of byte strings.
- Randomness is not modelled:
  - `mt19937`, its clock seed and the uniform distributions become parameters: the shuffle's swap positions, the neighbour's positions, and the uniform draw of each iteration;
  - `std::shuffle` is modelled as swaps of position `i` with a drawn position at most `i`, which covers arbitrary permutations.
- Floating point is modelled with `real` for the annealing distances and the merge-sort elements:
  - `sqrt` in the distance is a given `distance` function;
  - `exp` in the acceptance probability is a given term;
  - the geometric cooling loop is a given list of iterations (`moves`);
  - NaN and signed zeros are not represented.
- The quality of the annealing result is not claimed: it is stochastic, and the source promises no optimality.
- Annealing.PerformSimulatedAnnealing: requires at least two cities, because with one city the re-draw of the second position never ends (see Findings).
- Kruskal.KruskalMst: minimality is not proved. The result is proved to be an acyclic, weight-ordered set of candidate edges that joins the ends of every candidate, that is, a spanning forest; that no other spanning forest of candidates weighs less is not stated.
- `std::sort` in `kruskalMST` and in `GreedyApproach` is modelled by an insertion sort with the same contract:
  - Kruskal.SortByWeight: sorted by weight and a permutation; the relative order of equal-weight edges, which `std::sort` leaves unspecified, is not fixed;
  - CoinChange.SortDescending: descending and a permutation.
- Machine-integer overflow is not modelled, except in the hash:
  - the `INT_MAX` sentinels of the TSP search and of Floyd–Warshall are `Infinity`;
  - sums of weights, costs and flows are unbounded integers.
- FloydWarshall.CountReachable: an unreachable city never counts. In the source, an `INT_MAX` entry would count if the threshold were `INT_MAX` itself.
- FloydWarshall.FindTheCity: requires edge endpoints in `0..n-1` and non-negative weights. The source takes both for granted; with negative weights the relaxation no longer gives shortest walks.
- MaxFlow.MaxFlow: requires `source != sink`. Otherwise the bottleneck loop never runs, `flow` stays `INT_MAX` and the outer loop never ends.
- CoinChange.GreedyApproach: requires every denomination to be positive. With a zero denomination the inner loop never ends; a negative one would make the change grow without bound.
- SentinelManacher.FindLongestPalindrome: requires that the input contain neither `^` nor `$`. Otherwise the unguarded expansion can read outside `T`.
- Kmp.BuildLps: requires a non-empty pattern; `KMP` returns 0 before building the table when the pattern is empty.
- KnapsackMemo.Knapsack: requires non-negative weights and a capacity inside the table. With a negative weight `C - w[n-1]` leaves the table.
- KnapsackMemo.InitializeMemo: takes non-negative sizes.
- StringHash: characters are taken as signed `char`, the usual choice on x86. With unsigned `char`, bytes from 128 on would give other digits.
- StringHash.AllDistinct: the scan's result is stated about hashes; distinct strings may share a hash (see StringHash.BacktickCollides).
- MergeSort.MergeRuns: the stability of `merge` (left half first on ties) is stated through `Merge`. On plain values it is not observable beyond the resulting sequence.

## Findings

| source | as written | input that shows it | evidently intended | confidence | as-written member | corrected member |
|---|---|---|---|---|---|---|
| knapSack/knapSack.py:6-7 | capacity 0 returns 0 even when items remain | one item of weight 0 and value 5, capacity 0: returns 0, although taking the item fits and is worth 5 | the best value over all choices that fit, which only needs the "no items left" base case | not executed; harmless when every weight is positive (Knapsack.AgreesWithPositiveWeights) | Knapsack.ZeroCapacityMissesFreeItem | Knapsack.BestIsAchieved |
| A01254831-A01252916_Act5.7/main.cpp:131-137 | the second position is re-drawn while it equals the first, over positions `0..n-1` | one city: every draw is 0, so the loop never ends and no tour is printed | a one-city input is its own best tour, of length 0 | not executed | Annealing.OneCityRedrawsForever | Annealing.SimulatedAnnealing |
