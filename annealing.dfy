/** The combinatorial skeleton of simulated annealing for the travelling
    salesman: a symmetric distance matrix, cyclic tour lengths, a shuffled
    starting tour, segment reversal as the neighbour move, acceptance of
    every shorter tour, and the best tour seen so far. Random draws and the
    exponential acceptance term come in as parameters. */
module Annealing {

  /** `dm` is an n-by-n matrix read the same both ways with zeros on its
      diagonal. */
  ghost predicate DistanceMatrix(dm: array2<real>, n: int)
    reads dm
  {
    && dm.Length0 == n && dm.Length1 == n
    && (forall i, j :: 0 <= i < n && 0 <= j < n ==> dm[i, j] == dm[j, i])
    && (forall i :: 0 <= i < n ==> dm[i, i] == 0.0)
  }

  /** The entry at `(a, b)` once rows before `i`, and the columns of row `i`
      before `j`, have been filled from `distance`. */
  function FillValue(distance: (int, int) -> real, i: int, j: int, a: int, b: int): real
  {
    if a < b && (a < i || (a == i && b < j)) then distance(a, b)
    else if b < a && (b < i || (b == i && a < j)) then distance(b, a)
    else 0.0
  }

  /** Allocates an n-by-n matrix of zeros and fills both `(i, j)` and
      `(j, i)` with the distance between cities `i < j`. */
  method ReadDistances(n: nat, distance: (int, int) -> real) returns (dm: array2<real>)
    ensures fresh(dm) && DistanceMatrix(dm, n)
    ensures forall i, j :: 0 <= i < j < n ==> dm[i, j] == distance(i, j)
  {
    dm := new real[n, n]((_, _) => 0.0);
    for i := 0 to n
      invariant forall a, b :: 0 <= a < n && 0 <= b < n ==> dm[a, b] == FillValue(distance, i, i + 1, a, b)
    {
      for j := i + 1 to n
        invariant forall a, b :: 0 <= a < n && 0 <= b < n ==> dm[a, b] == FillValue(distance, i, j, a, b)
      {
        var d := distance(i, j);
        dm[i, j] := d;
        dm[j, i] := d;
      }
    }
  }

  /** Every city of `t` is a row of `dm`. */
  predicate InRange(t: seq<int>, n: int)
  {
    forall k :: 0 <= k < |t| ==> 0 <= t[k] < n
  }

  /** `t` visits each of the cities `0..n - 1` exactly once. */
  predicate IsPermutation(t: seq<int>, n: int)
  {
    |t| == n && InRange(t, n) && forall p, q :: 0 <= p < q < n ==> t[p] != t[q]
  }

  /** The length of the open path through `t`. */
  ghost function PathLength(t: seq<int>, dm: array2<real>): real
    reads dm
    requires InRange(t, dm.Length0) && dm.Length0 == dm.Length1
  {
    if |t| <= 1 then 0.0 else dm[t[0], t[1]] + PathLength(t[1..], dm)
  }

  /** The length of the closed tour through `t`, back to its first city. */
  ghost function TourLength(t: seq<int>, dm: array2<real>): real
    reads dm
    requires |t| >= 1 && InRange(t, dm.Length0) && dm.Length0 == dm.Length1
  {
    PathLength(t, dm) + dm[t[|t| - 1], t[0]]
  }

  /** Extending a path by one city adds the edge to it. */
  lemma {:induction false} PathAppend(t: seq<int>, x: int, dm: array2<real>)
    requires |t| >= 1 && InRange(t, dm.Length0) && 0 <= x < dm.Length0 && dm.Length0 == dm.Length1
    ensures PathLength(t + [x], dm) == PathLength(t, dm) + dm[t[|t| - 1], x]
  {
    if |t| > 1 {
      assert (t + [x])[1..] == t[1..] + [x];
      PathAppend(t[1..], x, dm);
    }
  }

  /** A tour of one city has length 0. */
  lemma OneCity(t: seq<int>, dm: array2<real>)
    requires |t| == 1 && 0 <= t[0] < dm.Length0 && DistanceMatrix(dm, dm.Length0)
    ensures TourLength(t, dm) == 0.0
  {
  }

  function Reverse(s: seq<int>): (r: seq<int>)
    ensures |r| == |s| && forall k :: 0 <= k < |s| ==> r[k] == s[|s| - 1 - k]
  {
    if |s| == 0 then [] else Reverse(s[1..]) + [s[0]]
  }

  /** Walking a path backwards over a symmetric matrix covers the same
      distance. */
  lemma {:induction false} ReversePathLength(t: seq<int>, dm: array2<real>)
    requires InRange(t, dm.Length0) && DistanceMatrix(dm, dm.Length0)
    ensures PathLength(Reverse(t), dm) == PathLength(t, dm)
  {
    if |t| > 1 {
      ReversePathLength(t[1..], dm);
      PathAppend(Reverse(t[1..]), t[0], dm);
    }
  }

  /** Reversing the whole tour over a symmetric matrix keeps its length. */
  lemma ReverseTourLength(t: seq<int>, dm: array2<real>)
    requires |t| >= 1 && InRange(t, dm.Length0) && DistanceMatrix(dm, dm.Length0)
    ensures TourLength(Reverse(t), dm) == TourLength(t, dm)
  {
    ReversePathLength(t, dm);
  }

  /** Sums the edges between consecutive cities and the closing edge. */
  method CalculateTotalTourDistance(tour: seq<int>, dm: array2<real>) returns (totalDistance: real)
    requires |tour| >= 1 && InRange(tour, dm.Length0) && dm.Length0 == dm.Length1
    ensures totalDistance == TourLength(tour, dm)
  {
    totalDistance := 0.0;
    var numberOfCities := |tour|;
    for index := 0 to numberOfCities - 1
      invariant totalDistance == PathLength(tour[..index + 1], dm)
    {
      assert tour[..index + 2] == tour[..index + 1] + [tour[index + 1]];
      PathAppend(tour[..index + 1], tour[index + 1], dm);
      totalDistance := totalDistance + dm[tour[index], tour[index + 1]];
    }
    assert tour[..numberOfCities] == tour;
    totalDistance := totalDistance + dm[tour[numberOfCities - 1], tour[0]];
  }

  /** The draws of a shuffle of `n` elements: step `i` swaps position `i`
      with a position at most `i`. */
  predicate ShuffleDraws(draws: seq<int>, n: int)
  {
    |draws| == n && forall i :: 0 <= i < n ==> 0 <= draws[i] <= i
  }

  /** `t` with the cities at positions `i` and `j` exchanged. */
  function Swap(t: seq<int>, i: int, j: int): seq<int>
    requires 0 <= i < |t| && 0 <= j < |t|
  {
    t[i := t[j]][j := t[i]]
  }

  /** The identity tour `0, 1, …, n - 1` after the first `k` swaps of the
      shuffle. */
  function Shuffled(n: nat, draws: seq<int>, k: nat): (t: seq<int>)
    requires ShuffleDraws(draws, n) && k <= n
    ensures |t| == n
  {
    if k == 0 then seq(n, i => i) else Swap(Shuffled(n, draws, k - 1), k - 1, draws[k - 1])
  }

  /** The identity tour `0, 1, …, n - 1`, then shuffled by swapping each
      position with one drawn at or before it. */
  method GenerateInitialTour(n: nat, draws: seq<int>) returns (tour: seq<int>)
    requires ShuffleDraws(draws, n)
    ensures tour == Shuffled(n, draws, n)
    ensures IsPermutation(tour, n)
  {
    tour := [];
    for index := 0 to n
      invariant |tour| == index && forall k :: 0 <= k < index ==> tour[k] == k
    {
      tour := tour + [index];
    }
    assert tour == Shuffled(n, draws, 0);
    for i := 0 to n
      invariant tour == Shuffled(n, draws, i)
      invariant IsPermutation(tour, n)
    {
      var j := draws[i];
      tour := tour[i := tour[j]][j := tour[i]];
    }
  }

  /** The neighbour of `t` that reverses the segment `t[a..b]` (inclusive). */
  function ReverseSegment(t: seq<int>, a: int, b: int): seq<int>
    requires 0 <= a <= b < |t|
  {
    t[..a] + Reverse(t[a..b + 1]) + t[b + 1..]
  }

  /** Where position `k` of the reversed segment `[a, b]` comes from. */
  function Mirror(a: int, b: int, k: int): int
  {
    if a <= k <= b then a + b - k else k
  }

  /** Each position of the neighbour holds the city at its mirror image. */
  lemma ReverseSegmentAt(t: seq<int>, a: int, b: int)
    requires 0 <= a <= b < |t|
    ensures |ReverseSegment(t, a, b)| == |t|
    ensures forall k :: 0 <= k < |t| ==> 0 <= Mirror(a, b, k) < |t| && ReverseSegment(t, a, b)[k] == t[Mirror(a, b, k)]
  {
    var r := ReverseSegment(t, a, b);
    forall k | 0 <= k < |t|
      ensures r[k] == t[Mirror(a, b, k)]
    {
      if k < a {
        assert r[k] == t[..a][k];
      } else if k <= b {
        assert r[k] == Reverse(t[a..b + 1])[k - a];
      } else {
        assert r[k] == t[b + 1..][k - b - 1];
      }
    }
  }

  /** Reversing a segment of a permutation gives a permutation. */
  lemma ReverseSegmentPermutes(t: seq<int>, n: int, a: int, b: int)
    requires IsPermutation(t, n) && 0 <= a <= b < n
    ensures IsPermutation(ReverseSegment(t, a, b), n)
  {
    ReverseSegmentAt(t, a, b);
    var r := ReverseSegment(t, a, b);
    forall p, q | 0 <= p < q < n
      ensures r[p] != r[q]
    {
      var mp, mq := Mirror(a, b, p), Mirror(a, b, q);
      assert mp != mq;
      if mp < mq {
        assert t[mp] != t[mq];
      } else {
        assert t[mq] != t[mp];
      }
    }
  }

  /** The draws for one neighbour: a first position, then second positions
      drawn until one differs from the first. */
  predicate NeighbourDraws(positionA: int, drawsB: seq<int>, n: int)
  {
    && 0 <= positionA < n && |drawsB| >= 1 && InRange(drawsB, n)
    && (forall k :: 0 <= k < |drawsB| - 1 ==> drawsB[k] == positionA)
    && drawsB[|drawsB| - 1] != positionA
  }

  /** The tour reached from `t` with those draws. */
  function Neighbour(t: seq<int>, positionA: int, drawsB: seq<int>): (r: seq<int>)
    requires NeighbourDraws(positionA, drawsB, |t|)
    ensures IsPermutation(t, |t|) ==> IsPermutation(r, |t|)
  {
    var positionB := drawsB[|drawsB| - 1];
    var a, b := if positionA < positionB then positionA else positionB,
                if positionA < positionB then positionB else positionA;
    if IsPermutation(t, |t|) then
      ReverseSegmentPermutes(t, |t|, a, b);
      ReverseSegment(t, a, b)
    else
      ReverseSegment(t, a, b)
  }

  /** With one city every drawn position is 0, the first one included, so no
      run of draws ends the re-draw of the second position. */
  lemma OneCityRedrawsForever(positionA: int, drawsB: seq<int>)
    requires 0 <= positionA < 1 && InRange(drawsB, 1)
    ensures forall k :: 0 <= k < |drawsB| ==> drawsB[k] == positionA
    ensures !NeighbourDraws(positionA, drawsB, 1)
  {
  }

  /** Copies the current tour, draws two different positions (re-drawing
      the second while it equals the first), orders them and reverses the
      segment between them in place. */
  method GenerateNeighborTour(currentTour: seq<int>, drawA: int, drawsB: seq<int>)
    returns (neighborTour: seq<int>)
    requires |currentTour| >= 2 && NeighbourDraws(drawA, drawsB, |currentTour|)
    ensures neighborTour == Neighbour(currentTour, drawA, drawsB)
  {
    neighborTour := currentTour;
    var positionA := drawA;
    var positionB := drawsB[0];
    var k := 1;
    while positionB == positionA
      invariant 1 <= k <= |drawsB| && positionB == drawsB[k - 1]
      decreases |drawsB| - k
    {
      positionB := drawsB[k];
      k := k + 1;
    }
    assert k == |drawsB|;
    if positionA > positionB {
      positionA, positionB := positionB, positionA;
    }
    neighborTour := Reversed(neighborTour, positionA, positionB);
  }

  /** Reverses `t[a..b]` (inclusive) by swapping its ends inwards. */
  method Reversed(t: seq<int>, a: int, b: int) returns (r: seq<int>)
    requires 0 <= a <= b < |t|
    ensures r == ReverseSegment(t, a, b)
  {
    r := t;
    var lo, hi := a, b;
    while lo < hi
      invariant a <= lo <= hi + 1 && hi <= b && lo - a == b - hi && |r| == |t|
      invariant forall k :: 0 <= k < |t| ==>
                  r[k] == (if (a <= k < lo) || (hi < k <= b) then t[Mirror(a, b, k)] else t[k])
    {
      r := r[lo := r[hi]][hi := r[lo]];
      lo, hi := lo + 1, hi - 1;
    }
    ReverseSegmentAt(t, a, b);
    assert forall k :: 0 <= k < |t| ==> r[k] == ReverseSegment(t, a, b)[k];
  }

  /** The chance of moving to the neighbour: certain when it is shorter,
      otherwise `expTerm`, which stands for `exp((current - new) / T)`. */
  function AcceptanceProbability(currentDistance: real, newDistance: real, expTerm: real): (p: real)
    ensures newDistance < currentDistance ==> p == 1.0
    ensures newDistance >= currentDistance ==> p == expTerm
  {
    if newDistance < currentDistance then 1.0 else expTerm
  }

  /** A strictly shorter neighbour is accepted whatever the uniform draw
      in [0, 1) is. */
  lemma ShorterAccepted(currentDistance: real, newDistance: real, expTerm: real, draw: real)
    requires newDistance < currentDistance && 0.0 <= draw < 1.0
    ensures AcceptanceProbability(currentDistance, newDistance, expTerm) > draw
  {
  }

  /** The random inputs of one iteration: the neighbour's draws, the
      exponential term and the uniform draw compared with it. */
  datatype Move = Move(positionA: int, positionsB: seq<int>, expTerm: real, draw: real)

  predicate ValidMove(mv: Move, n: int)
  {
    NeighbourDraws(mv.positionA, mv.positionsB, n) && 0.0 <= mv.draw < 1.0
  }

  /** The annealing state: the current tour and the best tour, each a
      permutation whose recorded length is its tour length, the best no
      longer than the current. */
  ghost predicate Consistent(dm: array2<real>, n: int, current: seq<int>, currentDistance: real,
                             best: seq<int>, bestDistance: real)
    reads dm
  {
    && n >= 2 && DistanceMatrix(dm, n)
    && IsPermutation(current, n) && currentDistance == TourLength(current, dm)
    && IsPermutation(best, n) && bestDistance == TourLength(best, dm)
    && bestDistance <= currentDistance
  }

  /** One iteration: move to the neighbour when the draw falls below its
      acceptance probability, then keep the current tour as the best when
      it is strictly shorter. */
  method AnnealStep(dm: array2<real>, n: int, current: seq<int>, currentDistance: real,
                    best: seq<int>, bestDistance: real, mv: Move)
    returns (current': seq<int>, currentDistance': real, best': seq<int>, bestDistance': real)
    requires Consistent(dm, n, current, currentDistance, best, bestDistance) && ValidMove(mv, n)
    ensures Consistent(dm, n, current', currentDistance', best', bestDistance')
    ensures current' == NextTour(dm, n, current, mv)
    ensures currentDistance' < bestDistance ==> best' == current' && bestDistance' == currentDistance'
    ensures currentDistance' >= bestDistance ==> best' == best && bestDistance' == bestDistance
  {
    var neighborTour := GenerateNeighborTour(current, mv.positionA, mv.positionsB);
    var neighborDistance := CalculateTotalTourDistance(neighborTour, dm);
    var acceptanceProb := AcceptanceProbability(currentDistance, neighborDistance, mv.expTerm);
    current', currentDistance' := current, currentDistance;
    if acceptanceProb > mv.draw {
      current', currentDistance' := neighborTour, neighborDistance;
    }
    best', bestDistance' := best, bestDistance;
    if currentDistance' < bestDistance {
      best', bestDistance' := current', currentDistance';
    }
  }

  /** The tour after one iteration from `t`: the neighbour when the draw
      falls below its acceptance probability, `t` itself otherwise. */
  ghost function NextTour(dm: array2<real>, n: int, t: seq<int>, mv: Move): (r: seq<int>)
    reads dm
    requires DistanceMatrix(dm, n) && IsPermutation(t, n) && ValidMove(mv, n)
    ensures IsPermutation(r, n)
  {
    var nb := Neighbour(t, mv.positionA, mv.positionsB);
    if AcceptanceProbability(TourLength(t, dm), TourLength(nb, dm), mv.expTerm) > mv.draw then nb else t
  }

  /** Every one of `tours` is a permutation, and `best`, of length
      `bestDistance`, is the first of them that none is shorter than. */
  ghost predicate FirstShortest(dm: array2<real>, n: int, tours: seq<seq<int>>, best: seq<int>, bestDistance: real)
    reads dm
    requires n >= 1 && DistanceMatrix(dm, n)
  {
    && (forall k :: 0 <= k < |tours| ==> IsPermutation(tours[k], n) && bestDistance <= TourLength(tours[k], dm))
    && exists i :: 0 <= i < |tours| && tours[i] == best && IsPermutation(best, n) && bestDistance == TourLength(best, dm) &&
         forall j :: 0 <= j < i ==> IsPermutation(tours[j], n) && bestDistance < TourLength(tours[j], dm)
  }

  /** Visiting one more tour `t`, and replacing the best by it exactly when
      it is strictly shorter, keeps the best the first shortest tour. */
  lemma FirstShortestExtend(dm: array2<real>, n: int, tours: seq<seq<int>>, best: seq<int>, bestDistance: real,
                            t: seq<int>, best': seq<int>, bestDistance': real)
    requires n >= 1 && DistanceMatrix(dm, n) && IsPermutation(t, n)
    requires FirstShortest(dm, n, tours, best, bestDistance)
    requires TourLength(t, dm) < bestDistance ==> best' == t && bestDistance' == TourLength(t, dm)
    requires TourLength(t, dm) >= bestDistance ==> best' == best && bestDistance' == bestDistance
    ensures FirstShortest(dm, n, tours + [t], best', bestDistance')
  {
    var ts := tours + [t];
    assert ts[|tours|] == t;
    assert forall k :: 0 <= k < |ts| ==> IsPermutation(ts[k], n) && bestDistance' <= TourLength(ts[k], dm) by {
      forall k | 0 <= k < |ts|
        ensures IsPermutation(ts[k], n) && bestDistance' <= TourLength(ts[k], dm)
      {
        if k < |tours| {
          assert ts[k] == tours[k];
        }
      }
    }
    if TourLength(t, dm) < bestDistance {
      assert forall j :: 0 <= j < |tours| ==> IsPermutation(ts[j], n) && bestDistance' < TourLength(ts[j], dm) by {
        forall j | 0 <= j < |tours|
          ensures IsPermutation(ts[j], n) && bestDistance' < TourLength(ts[j], dm)
        {
          assert ts[j] == tours[j];
        }
      }
    } else {
      var i :| 0 <= i < |tours| && tours[i] == best && IsPermutation(best, n) && bestDistance == TourLength(best, dm) &&
               forall j :: 0 <= j < i ==> IsPermutation(tours[j], n) && bestDistance < TourLength(tours[j], dm);
      assert ts[i] == best';
      assert forall j :: 0 <= j < i ==> IsPermutation(ts[j], n) && bestDistance' < TourLength(ts[j], dm) by {
        forall j | 0 <= j < i
          ensures IsPermutation(ts[j], n) && bestDistance' < TourLength(ts[j], dm)
        {
          assert ts[j] == tours[j];
        }
      }
    }
  }

  /** The first `k` iterations of a run: each of `tours[0..k]` is a
      permutation and `tours[j + 1]` is the tour after iteration `j`. */
  ghost predicate Trajectory(dm: array2<real>, n: int, moves: seq<Move>, tours: seq<seq<int>>, k: int)
    reads dm
    requires DistanceMatrix(dm, n) && 0 <= k <= |moves| && k < |tours|
    requires forall j :: 0 <= j < |moves| ==> ValidMove(moves[j], n)
  {
    forall j :: 0 <= j < k ==> IsPermutation(tours[j], n) && tours[j + 1] == NextTour(dm, n, tours[j], moves[j])
  }

  /** Recording the tour after iteration `k` extends the trajectory by one. */
  lemma TrajectoryExtend(dm: array2<real>, n: int, moves: seq<Move>, tours: seq<seq<int>>, k: int, t: seq<int>)
    requires DistanceMatrix(dm, n) && 0 <= k < |moves| && |tours| == k + 1
    requires forall j :: 0 <= j < |moves| ==> ValidMove(moves[j], n)
    requires Trajectory(dm, n, moves, tours, k) && IsPermutation(tours[k], n)
    requires t == NextTour(dm, n, tours[k], moves[k])
    ensures Trajectory(dm, n, moves, tours + [t], k + 1)
  {
    var ts := tours + [t];
    forall j | 0 <= j < k + 1
      ensures IsPermutation(ts[j], n) && ts[j + 1] == NextTour(dm, n, ts[j], moves[j])
    {
      assert ts[j] == tours[j];
      if j < k {
        assert ts[j + 1] == tours[j + 1];
      }
    }
  }

  /** Starts from the shuffled tour and runs one iteration per move. The
      ghost `tours` are the tours the run visits: the shuffled tour, then
      each iteration's outcome. The best tour is the first of them that none
      is shorter than, and its recorded length is its tour length. */
  method PerformSimulatedAnnealing(dm: array2<real>, n: int, shuffle: seq<int>, moves: seq<Move>)
    returns (bestTour: seq<int>, bestDistance: real, ghost tours: seq<seq<int>>)
    requires n >= 2 && DistanceMatrix(dm, n) && ShuffleDraws(shuffle, n)
    requires forall k :: 0 <= k < |moves| ==> ValidMove(moves[k], n)
    ensures IsPermutation(bestTour, n) && bestDistance == TourLength(bestTour, dm)
    ensures |tours| == |moves| + 1 && tours[0] == Shuffled(n, shuffle, n)
    ensures Trajectory(dm, n, moves, tours, |moves|)
    ensures FirstShortest(dm, n, tours, bestTour, bestDistance)
  {
    var currentTour := GenerateInitialTour(n, shuffle);
    var currentDistance := CalculateTotalTourDistance(currentTour, dm);
    bestTour, bestDistance := currentTour, currentDistance;
    tours := [currentTour];
    assert FirstShortest(dm, n, tours, bestTour, bestDistance) by {
      assert tours[0] == bestTour;
    }
    for iteration := 0 to |moves|
      invariant Consistent(dm, n, currentTour, currentDistance, bestTour, bestDistance)
      invariant |tours| == iteration + 1 && tours[0] == Shuffled(n, shuffle, n) && tours[iteration] == currentTour
      invariant Trajectory(dm, n, moves, tours, iteration)
      invariant FirstShortest(dm, n, tours, bestTour, bestDistance)
    {
      ghost var previous := tours;
      ghost var previousBest, previousBestDistance := bestTour, bestDistance;
      currentTour, currentDistance, bestTour, bestDistance :=
        AnnealStep(dm, n, currentTour, currentDistance, bestTour, bestDistance, moves[iteration]);
      FirstShortestExtend(dm, n, previous, previousBest, previousBestDistance, currentTour, bestTour, bestDistance);
      TrajectoryExtend(dm, n, moves, previous, iteration, currentTour);
      tours := previous + [currentTour];
    }
  }

  /** The run with a single city short-circuited: that city alone is the
      best tour, of length 0. From two cities on it is the run above. */
  method SimulatedAnnealing(dm: array2<real>, n: int, shuffle: seq<int>, moves: seq<Move>)
    returns (bestTour: seq<int>, bestDistance: real, ghost tours: seq<seq<int>>)
    requires n >= 1 && DistanceMatrix(dm, n) && ShuffleDraws(shuffle, n)
    requires n >= 2 ==> forall k :: 0 <= k < |moves| ==> ValidMove(moves[k], n)
    ensures IsPermutation(bestTour, n) && bestDistance == TourLength(bestTour, dm)
    ensures n == 1 ==> bestTour == [0] && bestDistance == 0.0
    ensures n >= 2 ==> |tours| == |moves| + 1 && tours[0] == Shuffled(n, shuffle, n) &&
                       Trajectory(dm, n, moves, tours, |moves|) && FirstShortest(dm, n, tours, bestTour, bestDistance)
  {
    if n == 1 {
      bestTour := GenerateInitialTour(n, shuffle);
      assert bestTour == [0];
      bestDistance := CalculateTotalTourDistance(bestTour, dm);
      OneCity(bestTour, dm);
      tours := [bestTour];
    } else {
      bestTour, bestDistance, tours := PerformSimulatedAnnealing(dm, n, shuffle, moves);
    }
  }
}
