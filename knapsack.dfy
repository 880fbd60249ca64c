/** 0/1 knapsack by plain recursion over the last item: skip it, or take it
    when it fits, and keep the better of the two. */
module Knapsack {

  function Max(a: int, b: int): (m: int)
    ensures m >= a && m >= b && (m == a || m == b)
  {
    if a >= b then a else b
  }

  /** The recursion as written: no items or no capacity left gives 0; an
      item heavier than the capacity is skipped. */
  function Knapsack(n: nat, c: int, w: seq<int>, v: seq<int>): int
    requires n <= |w| && n <= |v|
  {
    if n == 0 || c == 0 then 0
    else if w[n - 1] > c then Knapsack(n - 1, c, w, v)
    else Max(Knapsack(n - 1, c, w, v), v[n - 1] + Knapsack(n - 1, c - w[n - 1], w, v))
  }

  /** The recursion with only the "no items" base case: a full knapsack can
      still take items that weigh nothing. */
  function Best(n: nat, c: int, w: seq<int>, v: seq<int>): int
    requires n <= |w| && n <= |v|
  {
    if n == 0 then 0
    else if w[n - 1] > c then Best(n - 1, c, w, v)
    else Max(Best(n - 1, c, w, v), v[n - 1] + Best(n - 1, c - w[n - 1], w, v))
  }

  /** The sum of `a[k]` over the items `k` chosen by `x`. */
  function Total(x: seq<bool>, a: seq<int>): int
    requires |x| <= |a|
  {
    if |x| == 0 then 0
    else Total(x[..|x| - 1], a) + (if x[|x| - 1] then a[|x| - 1] else 0)
  }

  /** The first `n` weights are not negative. */
  predicate NonNegative(w: seq<int>, n: nat)
    requires n <= |w|
  {
    forall k :: 0 <= k < n ==> w[k] >= 0
  }

  /** A choice among items with non-negative weights weighs at least 0. */
  lemma {:induction false} TotalNonNegative(x: seq<bool>, w: seq<int>)
    requires |x| <= |w| && NonNegative(w, |x|)
    ensures Total(x, w) >= 0
  {
    if |x| > 0 {
      TotalNonNegative(x[..|x| - 1], w);
    }
  }

  /** Choosing one more item adds its weight or value only when chosen. */
  lemma TotalAppend(x: seq<bool>, b: bool, a: seq<int>)
    requires |x| < |a|
    ensures Total(x + [b], a) == Total(x, a) + (if b then a[|x|] else 0)
  {
    assert (x + [b])[..|x|] == x;
  }

  /** No choice of the first `n` items that fits into `c` is worth more
      than `Best(n, c)`. */
  lemma {:induction false} BestIsUpperBound(n: nat, c: int, w: seq<int>, v: seq<int>, x: seq<bool>)
    requires n <= |w| && n <= |v| && NonNegative(w, n)
    ensures |x| == n && Total(x, w) <= c ==> Total(x, v) <= Best(n, c, w, v)
  {
    if |x| == n && n > 0 {
      var y := x[..n - 1];
      assert x == y + [x[n - 1]];
      TotalAppend(y, x[n - 1], w);
      TotalAppend(y, x[n - 1], v);
      TotalNonNegative(y, w);
      BestIsUpperBound(n - 1, c, w, v, y);
      BestIsUpperBound(n - 1, c - w[n - 1], w, v, y);
    }
  }

  /** Some choice of the first `n` items that fits into `c` is worth
      exactly `Best(n, c)`. */
  lemma {:induction false} BestIsAchieved(n: nat, c: int, w: seq<int>, v: seq<int>) returns (x: seq<bool>)
    requires n <= |w| && n <= |v| && NonNegative(w, n) && c >= 0
    ensures |x| == n && Total(x, w) <= c && Total(x, v) == Best(n, c, w, v)
  {
    if n == 0 {
      x := [];
    } else {
      var skip := BestIsAchieved(n - 1, c, w, v);
      if w[n - 1] <= c && Best(n, c, w, v) != Best(n - 1, c, w, v) {
        var take := BestIsAchieved(n - 1, c - w[n - 1], w, v);
        x := take + [true];
        TotalAppend(take, true, w);
        TotalAppend(take, true, v);
      } else {
        x := skip + [false];
        TotalAppend(skip, false, w);
        TotalAppend(skip, false, v);
      }
    }
  }

  /** With only positive weights, the recursion as written computes the
      best value. */
  lemma {:induction false} AgreesWithPositiveWeights(n: nat, c: int, w: seq<int>, v: seq<int>)
    requires n <= |w| && n <= |v| && forall k :: 0 <= k < n ==> w[k] > 0
    ensures Knapsack(n, c, w, v) == Best(n, c, w, v)
  {
    if n > 0 {
      AgreesWithPositiveWeights(n - 1, c, w, v);
      AgreesWithPositiveWeights(n - 1, c - w[n - 1], w, v);
      if c == 0 {
        ZeroCapacityWithPositiveWeights(n, w, v);
      }
    }
  }

  /** With only positive weights, nothing fits into an empty knapsack. */
  lemma {:induction false} ZeroCapacityWithPositiveWeights(n: nat, w: seq<int>, v: seq<int>)
    requires n <= |w| && n <= |v| && forall k :: 0 <= k < n ==> w[k] > 0
    ensures Best(n, 0, w, v) == 0
  {
    if n > 0 {
      ZeroCapacityWithPositiveWeights(n - 1, w, v);
    }
  }

  /** As written, a knapsack with no capacity left ignores an item that
      weighs nothing: one item of weight 0 and value 5 gives 0, although
      taking it fits and is worth 5. */
  lemma ZeroCapacityMissesFreeItem()
    ensures Knapsack(1, 0, [0], [5]) == 0
    ensures Total([true], [0]) <= 0 && Total([true], [5]) == 5
    ensures Best(1, 0, [0], [5]) == 5
  {
    assert [true][..0] == [];
  }
}
