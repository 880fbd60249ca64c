/** Greedy coin change: sort the denominations from largest to smallest,
    then hand out as many of each as still fit into the change. */
module CoinChange {

  /** Every denomination is positive: with a zero one the greedy loop never
      ends, and a negative one only makes the change grow. */
  predicate Positive(us: seq<int>)
  {
    forall k :: 0 <= k < |us| ==> us[k] > 0
  }

  predicate SortedDesc(us: seq<int>)
  {
    forall p, q :: 0 <= p < q < |us| ==> us[p] >= us[q]
  }

  /** How many coins of value `unit` fit into `change`: none when the change
      is negative. */
  function Take(change: int, unit: int): (c: int)
    requires unit > 0
    ensures c >= 0
  {
    if change < 0 then 0 else change / unit
  }

  /** The counts the greedy strategy hands out for each denomination of
      `us`, in order. */
  function GreedyCounts(change: int, us: seq<int>): (counts: seq<int>)
    requires Positive(us)
    ensures |counts| == |us|
  {
    if |us| == 0 then []
    else [Take(change, us[0])] + GreedyCounts(change - Take(change, us[0]) * us[0], us[1..])
  }

  /** The change left over once the greedy strategy has run through `us`. */
  function Leftover(change: int, us: seq<int>): int
    requires Positive(us)
  {
    if |us| == 0 then change
    else Leftover(change - Take(change, us[0]) * us[0], us[1..])
  }

  /** The value of `counts[k]` coins of each denomination `us[k]`. */
  function Value(counts: seq<int>, us: seq<int>): int
    requires |counts| == |us|
  {
    if |us| == 0 then 0 else counts[0] * us[0] + Value(counts[1..], us[1..])
  }

  /** Taking coins of one denomination leaves a remainder below it, and
      never a negative one out of a non-negative change. */
  lemma TakeBounds(change: int, unit: int)
    requires unit > 0
    ensures change - Take(change, unit) * unit < unit
    ensures change - Take(change, unit) * unit <= change
    ensures change >= 0 ==> change - Take(change, unit) * unit >= 0
  {
  }

  /** The coins handed out and the leftover add up to the change. */
  lemma {:induction false} Accounts(change: int, us: seq<int>)
    requires Positive(us)
    ensures Value(GreedyCounts(change, us), us) + Leftover(change, us) == change
  {
    if |us| > 0 {
      Accounts(change - Take(change, us[0]) * us[0], us[1..]);
      assert GreedyCounts(change, us)[1..] == GreedyCounts(change - Take(change, us[0]) * us[0], us[1..]);
    }
  }

  /** The leftover is at most the change, below every denomination, and
      not negative when the change is not. */
  lemma {:induction false} LeftoverBounds(change: int, us: seq<int>)
    requires Positive(us)
    ensures Leftover(change, us) <= change
    ensures forall k :: 0 <= k < |us| ==> Leftover(change, us) < us[k]
    ensures change >= 0 ==> Leftover(change, us) >= 0
  {
    if |us| > 0 {
      var rest := change - Take(change, us[0]) * us[0];
      TakeBounds(change, us[0]);
      LeftoverBounds(rest, us[1..]);
      forall k | 0 <= k < |us|
        ensures Leftover(change, us) < us[k]
      {
        if k > 0 {
          assert us[1..][k - 1] == us[k];
        }
      }
    }
  }

  /** Change that is negative or below every denomination gets no coin. */
  lemma {:induction false} SmallChangeNoCoins(change: int, us: seq<int>)
    requires Positive(us) && forall k :: 0 <= k < |us| ==> change < us[k]
    ensures forall k :: 0 <= k < |us| ==> GreedyCounts(change, us)[k] == 0
  {
    if |us| > 0 {
      assert Take(change, us[0]) == 0;
      assert forall k :: 0 <= k < |us[1..]| ==> change < us[1..][k];
      SmallChangeNoCoins(change, us[1..]);
      forall k | 0 < k < |us|
        ensures GreedyCounts(change, us)[k] == 0
      {
        assert GreedyCounts(change, us)[k] == GreedyCounts(change, us[1..])[k - 1];
      }
    }
  }

  /** The greedy counts from denomination `i` on: the coins of `us[i]`,
      then the counts from `i + 1` on for what is left. */
  lemma GreedyUnfold(change: int, us: seq<int>, i: int, count: int, rest: int)
    requires Positive(us) && 0 <= i < |us|
    requires count == Take(change, us[i]) && rest == change - count * us[i]
    ensures Positive(us[i..]) && Positive(us[i + 1..])
    ensures GreedyCounts(change, us[i..]) == [count] + GreedyCounts(rest, us[i + 1..])
  {
    assert us[i..][1..] == us[i + 1..];
  }

  /** A quotient and remainder that fit determine the quotient. */
  lemma Quotient(c: int, u: int, q: int, r: int)
    requires u > 0 && 0 <= r < u && c == q * u + r
    ensures c / u == q
  {
    var d := q - c / u;
    assert d * u == c % u - r;
    assert d >= 1 ==> d * u >= u;
    assert d <= -1 ==> d * u <= -u;
  }

  /** Exchanges `a[p]` and `a[p + 1]`. */
  method SwapNext(a: array<int>, p: int)
    requires 0 <= p && p + 1 < a.Length
    modifies a
    ensures a[..] == old(a[..])[p := old(a[p + 1])][p + 1 := old(a[p])]
    ensures multiset(a[..]) == multiset(old(a[..]))
  {
    a[p], a[p + 1] := a[p + 1], a[p];
  }

  /** `a[..i + 1]` is descending except at `j`, which is at least all that
      follows it, and its neighbours are in order around it. */
  ghost predicate Inserting(a: seq<int>, i: int, j: int)
  {
    && 0 <= j <= i < |a|
    && (forall p, q :: 0 <= p < q <= i && p != j && q != j ==> a[p] >= a[q])
    && (forall q :: j < q <= i ==> a[j] >= a[q])
    && (0 < j < i ==> a[j - 1] >= a[j + 1])
  }

  /** Every prefix that is descending can start inserting its next element. */
  lemma InsertStart(s: seq<int>, i: int)
    requires 0 <= i < |s| && SortedDesc(s[..i])
    ensures Inserting(s, i, i)
  {
    assert forall p :: 0 <= p < i ==> s[..i][p] == s[p];
  }

  /** Swapping the element being inserted with a smaller left neighbour
      moves it one place left. */
  lemma InsertStep(s: seq<int>, i: int, j: int)
    requires Inserting(s, i, j) && j > 0 && s[j - 1] < s[j]
    ensures Inserting(s[j - 1 := s[j]][j := s[j - 1]], i, j - 1)
  {
  }

  /** Once the left neighbour is not smaller, the prefix is sorted. */
  lemma InsertDone(s: seq<int>, i: int, j: int)
    requires Inserting(s, i, j) && (j == 0 || s[j - 1] >= s[j])
    ensures SortedDesc(s[..i + 1])
  {
  }

  /** Sorts the denominations into descending order, in place. */
  method SortDescending(a: array<int>)
    modifies a
    ensures SortedDesc(a[..]) && multiset(a[..]) == multiset(old(a[..]))
  {
    for i := 0 to a.Length
      invariant SortedDesc(a[..i]) && multiset(a[..]) == multiset(old(a[..]))
    {
      InsertStart(a[..], i);
      var j := i;
      while j > 0 && a[j - 1] < a[j]
        invariant Inserting(a[..], i, j) && multiset(a[..]) == multiset(old(a[..]))
      {
        InsertStep(a[..], i, j);
        SwapNext(a, j - 1);
        j := j - 1;
      }
      InsertDone(a[..], i, j);
    }
    assert a[..] == a[..a.Length];
  }

  /** Hands out coins of value `unit` while they still fit. */
  method Repeat(change: int, unit: int) returns (count: int, rest: int)
    requires unit > 0
    ensures count == Take(change, unit) && rest == change - count * unit
  {
    count, rest := 0, change;
    while rest >= unit
      invariant count * unit + rest == change && count >= 0
      invariant change >= 0 ==> rest >= 0
      invariant change < 0 ==> count == 0
      decreases rest
    {
      rest := rest - unit;
      count := count + 1;
    }
    if change >= 0 {
      Quotient(change, unit, count, rest);
    }
  }

  /** Sorts `units` into descending order (the caller sees the new order)
      and returns how many coins of each the greedy strategy gives. */
  method GreedyApproach(change: int, units: array<int>) returns (coinsUsed: seq<int>)
    requires Positive(units[..])
    modifies units
    ensures Positive(units[..])
    ensures SortedDesc(units[..]) && multiset(units[..]) == multiset(old(units[..]))
    ensures coinsUsed == GreedyCounts(change, units[..])
  {
    SortDescending(units);
    ghost var us := units[..];
    assert Positive(us) by {
      forall k | 0 <= k < |us|
        ensures us[k] > 0
      {
        assert us[k] in multiset(old(units[..]));
      }
    }
    coinsUsed := CountCoins(change, units[..]);
  }

  /** The loop of `greedyApproach` over the sorted denominations: as many
      coins of each as still fit into what is left of the change. */
  method CountCoins(change: int, us: seq<int>) returns (coinsUsed: seq<int>)
    requires Positive(us)
    ensures coinsUsed == GreedyCounts(change, us)
  {
    coinsUsed := seq(|us|, _ => 0);
    var remaining := change;
    for i := 0 to |us|
      invariant |coinsUsed| == |us|
      invariant coinsUsed[..i] + GreedyCounts(remaining, us[i..]) == GreedyCounts(change, us)
    {
      var count, rest := Repeat(remaining, us[i]);
      GreedyUnfold(remaining, us, i, count, rest);
      ghost var done := coinsUsed[..i];
      coinsUsed := coinsUsed[i := count];
      assert coinsUsed[..i + 1] + GreedyCounts(rest, us[i + 1..]) == done + ([count] + GreedyCounts(rest, us[i + 1..])) by {
        assert coinsUsed[..i + 1] == done + [count];
      }
      remaining := rest;
    }
    assert coinsUsed[..|us|] == coinsUsed;
  }
}
