/** Top-down merge sort of an array of reals into descending order, merging
    in place through two temporary copies of the halves. */
module MergeSort {

  /** `s` is in non-increasing order. */
  predicate SortedDesc(s: seq<real>)
  {
    forall i, j :: 0 <= i < j < |s| ==> s[i] >= s[j]
  }

  /** The descending merge of `l` and `r`, taking from `l` on a tie. */
  function Merge(l: seq<real>, r: seq<real>): seq<real>
    decreases |l| + |r|
  {
    if |l| == 0 then r
    else if |r| == 0 then l
    else if l[0] >= r[0] then [l[0]] + Merge(l[1..], r)
    else [r[0]] + Merge(l, r[1..])
  }

  /** Merging loses and invents no element. */
  lemma {:induction false} MergePermutes(l: seq<real>, r: seq<real>)
    ensures multiset(Merge(l, r)) == multiset(l) + multiset(r)
    decreases |l| + |r|
  {
    if |l| == 0 || |r| == 0 {
    } else if l[0] >= r[0] {
      MergePermutes(l[1..], r);
      assert l == [l[0]] + l[1..];
    } else {
      MergePermutes(l, r[1..]);
      assert r == [r[0]] + r[1..];
    }
  }

  /** Merging keeps every element, so the lengths add up. */
  lemma {:induction false} MergeLength(l: seq<real>, r: seq<real>)
    ensures |Merge(l, r)| == |l| + |r|
    decreases |l| + |r|
  {
    if |l| == 0 || |r| == 0 {
    } else if l[0] >= r[0] {
      MergeLength(l[1..], r);
    } else {
      MergeLength(l, r[1..]);
    }
  }

  /** No element of `s` exceeds `x`. */
  predicate Bounded(s: seq<real>, x: real)
  {
    forall k :: 0 <= k < |s| ==> s[k] <= x
  }

  /** A bound on both inputs bounds their merge. */
  lemma {:induction false} MergeBounded(l: seq<real>, r: seq<real>, x: real)
    requires Bounded(l, x) && Bounded(r, x)
    ensures Bounded(Merge(l, r), x)
    decreases |l| + |r|
  {
    if |l| == 0 || |r| == 0 {
    } else if l[0] >= r[0] {
      MergeBounded(l[1..], r, x);
      assert Merge(l, r) == [l[0]] + Merge(l[1..], r);
    } else {
      MergeBounded(l, r[1..], x);
      assert Merge(l, r) == [r[0]] + Merge(l, r[1..]);
    }
  }

  /** A descending sequence stays descending behind a head no smaller than
      any of its elements. */
  lemma SortedCons(x: real, s: seq<real>)
    requires SortedDesc(s) && Bounded(s, x)
    ensures SortedDesc([x] + s)
  {
    var t := [x] + s;
    forall i, j | 0 <= i < j < |t|
      ensures t[i] >= t[j]
    {
      if i > 0 {
        assert t[i] == s[i - 1] && t[j] == s[j - 1];
      }
    }
  }

  /** Merging two descending sequences gives a descending sequence. */
  lemma {:induction false} MergeSorted(l: seq<real>, r: seq<real>)
    requires SortedDesc(l) && SortedDesc(r)
    ensures SortedDesc(Merge(l, r))
    decreases |l| + |r|
  {
    if |l| == 0 || |r| == 0 {
    } else if l[0] >= r[0] {
      MergeSorted(l[1..], r);
      assert Bounded(l[1..], l[0]);
      assert Bounded(r, l[0]);
      MergeBounded(l[1..], r, l[0]);
      SortedCons(l[0], Merge(l[1..], r));
    } else {
      MergeSorted(l, r[1..]);
      assert Bounded(r[1..], r[0]);
      assert Bounded(l, r[0]);
      MergeBounded(l, r[1..], r[0]);
      SortedCons(r[0], Merge(l, r[1..]));
    }
  }

  /** The merge of `l[i..]` and `r[j..]` is what remains of `merged` after
      `i + j` elements. */
  ghost predicate Remaining(l: seq<real>, r: seq<real>, i: int, j: int, merged: seq<real>)
  {
    0 <= i <= |l| && 0 <= j <= |r| && i + j <= |merged| && Merge(l[i..], r[j..]) == merged[i + j..]
  }

  /** Taking `l[i]` is the next step of the merge when `r` is used up or
      `r[j]` is not larger. */
  lemma TakeLeft(l: seq<real>, r: seq<real>, i: int, j: int, merged: seq<real>)
    requires Remaining(l, r, i, j, merged) && i < |l| && (j == |r| || l[i] >= r[j])
    ensures merged[i + j] == l[i] && Remaining(l, r, i + 1, j, merged)
  {
    assert l[i..][1..] == l[i + 1..];
    assert Merge(l[i..], r[j..]) == [l[i]] + Merge(l[i + 1..], r[j..]);
    assert merged[i + j..][1..] == merged[i + j + 1..];
  }

  /** Taking `r[j]` is the next step of the merge when `l` is used up or
      `l[i]` is smaller. */
  lemma TakeRight(l: seq<real>, r: seq<real>, i: int, j: int, merged: seq<real>)
    requires Remaining(l, r, i, j, merged) && j < |r| && (i == |l| || l[i] < r[j])
    ensures merged[i + j] == r[j] && Remaining(l, r, i, j + 1, merged)
  {
    assert r[j..][1..] == r[j + 1..];
    assert Merge(l[i..], r[j..]) == [r[j]] + Merge(l[i..], r[j + 1..]);
    assert merged[i + j..][1..] == merged[i + j + 1..];
  }

  /** `b` agrees with `a` outside the inclusive range `[lo, hi]`. */
  predicate SameOutside(a: seq<real>, b: seq<real>, lo: int, hi: int)
  {
    |a| == |b| && forall k :: 0 <= k < |a| && !(lo <= k <= hi) ==> a[k] == b[k]
  }

  /** Copies `a[from..from + n]` into a temporary. */
  method CopyOut(a: array<real>, from: int, n: int) returns (c: seq<real>)
    requires 0 <= n && 0 <= from && from + n <= a.Length
    ensures c == a[from..from + n]
  {
    c := [];
    for i := 0 to n
      invariant c == a[from..from + i]
    {
      c := c + [a[from + i]];
    }
  }

  /** `a[left..k]` holds the first `k - left` elements of `merged`, and
      outside `[left, right]` the array still holds `a0`. */
  ghost predicate Placed(a: array<real>, a0: seq<real>, left: int, right: int, k: int, merged: seq<real>)
    reads a
  {
    && 0 <= left <= k <= right + 1 <= a.Length && k - left <= |merged|
    && (forall t :: left <= t < k ==> a[t] == merged[t - left])
    && SameOutside(a0, a[..], left, right)
  }

  /** Once the whole range is placed it holds exactly `merged`. */
  lemma Filled(a: array<real>, a0: seq<real>, left: int, right: int, merged: seq<real>)
    requires Placed(a, a0, left, right, right + 1, merged) && |merged| == right + 1 - left
    ensures a[left..right + 1] == merged
  {
  }

  /** Writes the next merged element at `k`. */
  method Put(a: array<real>, ghost a0: seq<real>, left: int, right: int, k: int, ghost merged: seq<real>, v: real)
    requires Placed(a, a0, left, right, k, merged) && k <= right && k - left < |merged| && merged[k - left] == v
    modifies a
    ensures Placed(a, a0, left, right, k + 1, merged)
  {
    a[k] := v;
  }

  /** Takes from the two temporaries while both have elements left,
      the left one on a tie; returns how many each gave. */
  method MergeWhileBoth(a: array<real>, ghost a0: seq<real>, left: int, right: int,
                        L: seq<real>, R: seq<real>, ghost merged: seq<real>)
    returns (i: int, j: int)
    requires |merged| == |L| + |R| == right + 1 - left
    requires Remaining(L, R, 0, 0, merged) && Placed(a, a0, left, right, left, merged)
    modifies a
    ensures Remaining(L, R, i, j, merged) && Placed(a, a0, left, right, left + i + j, merged)
    ensures i == |L| || j == |R|
  {
    i, j := 0, 0;
    var k := left;
    while i < |L| && j < |R|
      invariant k == left + i + j && Remaining(L, R, i, j, merged)
      invariant Placed(a, a0, left, right, k, merged)
    {
      if L[i] >= R[j] {
        TakeLeft(L, R, i, j, merged);
        Put(a, a0, left, right, k, merged, L[i]);
        i := i + 1;
      } else {
        TakeRight(L, R, i, j, merged);
        Put(a, a0, left, right, k, merged, R[j]);
        j := j + 1;
      }
      k := k + 1;
    }
  }

  /** Copies what is left of `L` from index `i` on, once `R` is used up. */
  method DrainLeft(a: array<real>, ghost a0: seq<real>, left: int, right: int,
                   L: seq<real>, R: seq<real>, ghost merged: seq<real>, i0: int)
    requires |merged| == |L| + |R| == right + 1 - left
    requires Remaining(L, R, i0, |R|, merged) && Placed(a, a0, left, right, left + i0 + |R|, merged)
    modifies a
    ensures Placed(a, a0, left, right, left + |L| + |R|, merged)
  {
    var i, k := i0, left + i0 + |R|;
    while i < |L|
      invariant k == left + i + |R| && Remaining(L, R, i, |R|, merged)
      invariant Placed(a, a0, left, right, k, merged)
    {
      TakeLeft(L, R, i, |R|, merged);
      Put(a, a0, left, right, k, merged, L[i]);
      i := i + 1;
      k := k + 1;
    }
  }

  /** Copies what is left of `R` from index `j` on, once `L` is used up. */
  method DrainRight(a: array<real>, ghost a0: seq<real>, left: int, right: int,
                    L: seq<real>, R: seq<real>, ghost merged: seq<real>, j0: int)
    requires |merged| == |L| + |R| == right + 1 - left
    requires Remaining(L, R, |L|, j0, merged) && Placed(a, a0, left, right, left + |L| + j0, merged)
    modifies a
    ensures Placed(a, a0, left, right, left + |L| + |R|, merged)
  {
    var j, k := j0, left + |L| + j0;
    while j < |R|
      invariant k == left + |L| + j && Remaining(L, R, |L|, j, merged)
      invariant Placed(a, a0, left, right, k, merged)
    {
      TakeRight(L, R, |L|, j, merged);
      Put(a, a0, left, right, k, merged, R[j]);
      j := j + 1;
      k := k + 1;
    }
  }

  /** Merges the descending runs `a[left..mid]` and `a[mid + 1..right]`
      (inclusive bounds) into `a[left..right]`, leaving the rest alone. */
  method MergeRuns(a: array<real>, left: int, mid: int, right: int)
    requires 0 <= left <= mid + 1 <= right + 1 <= a.Length
    modifies a
    ensures a[left..right + 1] == Merge(old(a[left..mid + 1]), old(a[mid + 1..right + 1]))
    ensures SameOutside(old(a[..]), a[..], left, right)
  {
    var n1 := mid - left + 1;
    var n2 := right - mid;
    var L := CopyOut(a, left, n1);
    var R := CopyOut(a, mid + 1, n2);
    ghost var a0 := a[..];
    ghost var merged := Merge(L, R);
    MergeLength(L, R);
    assert L[0..] == L && R[0..] == R && merged[0..] == merged;
    var i, j := MergeWhileBoth(a, a0, left, right, L, R, merged);
    if j == n2 {
      DrainLeft(a, a0, left, right, L, R, merged, i);
    } else {
      DrainRight(a, a0, left, right, L, R, merged, j);
    }
    Filled(a, a0, left, right, merged);
  }

  /** Two sorted halves merged make the range sorted; the range holds the
      elements it held before either half was sorted; and nothing outside
      the range moved. */
  lemma Combine(a0: seq<real>, a1: seq<real>, a2: seq<real>, a3: seq<real>, left: int, mid: int, right: int)
    requires 0 <= left <= mid < right < |a0|
    requires SameOutside(a0, a1, left, mid) && SameOutside(a1, a2, mid + 1, right) && SameOutside(a2, a3, left, right)
    requires SortedDesc(a1[left..mid + 1]) && multiset(a1[left..mid + 1]) == multiset(a0[left..mid + 1])
    requires SortedDesc(a2[mid + 1..right + 1]) && multiset(a2[mid + 1..right + 1]) == multiset(a1[mid + 1..right + 1])
    requires a3[left..right + 1] == Merge(a2[left..mid + 1], a2[mid + 1..right + 1])
    ensures SortedDesc(a3[left..right + 1])
    ensures multiset(a3[left..right + 1]) == multiset(a0[left..right + 1])
    ensures SameOutside(a0, a3, left, right)
  {
    assert a2[left..mid + 1] == a1[left..mid + 1];
    assert a1[mid + 1..right + 1] == a0[mid + 1..right + 1];
    MergeSorted(a2[left..mid + 1], a2[mid + 1..right + 1]);
    MergePermutes(a2[left..mid + 1], a2[mid + 1..right + 1]);
    assert a0[left..right + 1] == a0[left..mid + 1] + a0[mid + 1..right + 1];
  }

  /** Sorts `a[left..right]` (inclusive bounds) into descending order,
      permuting only that range; nothing changes when `left >= right`. */
  method MergeSortRange(a: array<real>, left: int, right: int)
    requires 0 <= left <= a.Length && -1 <= right < a.Length
    modifies a
    ensures left <= right ==> SortedDesc(a[left..right + 1])
    ensures left <= right ==> multiset(a[left..right + 1]) == multiset(old(a[left..right + 1]))
    ensures SameOutside(old(a[..]), a[..], left, right)
    ensures left >= right ==> a[..] == old(a[..])
    decreases right - left
  {
    if left < right {
      var mid := left + (right - left) / 2;
      ghost var a0 := a[..];
      MergeSortRange(a, left, mid);
      ghost var a1 := a[..];
      MergeSortRange(a, mid + 1, right);
      ghost var a2 := a[..];
      MergeRuns(a, left, mid, right);
      Combine(a0, a1, a2, a[..], left, mid, right);
    }
  }

  /** Sorts the whole array into descending order. */
  method Sort(a: array<real>)
    modifies a
    ensures SortedDesc(a[..]) && multiset(a[..]) == multiset(old(a[..]))
  {
    MergeSortRange(a, 0, a.Length - 1);
    assert a[..] == a[0..a.Length];
    assert old(a[..]) == old(a[0..a.Length]);
  }
}
