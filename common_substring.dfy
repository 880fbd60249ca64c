/** Longest common substring of two strings by dynamic programming over
    the lengths of common suffixes of their prefixes. */
module CommonSubstring {

  /** `s1[i - l..i]` and `s2[j - l..j]` are equal: a common substring of
      length `l` ending at `i` in `s1` and at `j` in `s2`. */
  predicate CommonEnding(s1: seq<char>, s2: seq<char>, i: int, j: int, l: int)
  {
    0 <= l <= i <= |s1| && l <= j <= |s2| && s1[i - l..i] == s2[j - l..j]
  }

  /** `l` is the length of the longest common suffix of `s1[..i]` and `s2[..j]`. */
  predicate LongestSuffix(s1: seq<char>, s2: seq<char>, i: int, j: int, l: int)
  {
    CommonEnding(s1, s2, i, j, l) && forall l' :: l < l' <= i ==> !CommonEnding(s1, s2, i, j, l')
  }

  /** The common suffix at `(i, j)` is the one at `(i - 1, j - 1)` extended
      by one when the characters before `i` and `j` agree, and empty
      otherwise. */
  lemma SuffixStep(s1: seq<char>, s2: seq<char>, i: int, j: int, l: int)
    requires 1 <= i <= |s1| && 1 <= j <= |s2| && LongestSuffix(s1, s2, i - 1, j - 1, l)
    ensures LongestSuffix(s1, s2, i, j, if s1[i - 1] == s2[j - 1] then l + 1 else 0)
  {
    var next := if s1[i - 1] == s2[j - 1] then l + 1 else 0;
    if s1[i - 1] == s2[j - 1] {
      assert s1[i - 1 - l..i] == s1[i - 1 - l..i - 1] + [s1[i - 1]];
      assert s2[j - 1 - l..j] == s2[j - 1 - l..j - 1] + [s2[j - 1]];
    }
    forall l' | next < l' <= i
      ensures !CommonEnding(s1, s2, i, j, l')
    {
      Shorten(s1, s2, i, j, l');
    }
  }

  /** A non-empty common suffix ends in equal characters and, without
      them, is a common suffix one shorter. */
  lemma Shorten(s1: seq<char>, s2: seq<char>, i: int, j: int, l: int)
    requires 0 < l
    ensures CommonEnding(s1, s2, i, j, l) ==>
              s1[i - 1] == s2[j - 1] && CommonEnding(s1, s2, i - 1, j - 1, l - 1)
  {
    if CommonEnding(s1, s2, i, j, l) {
      assert s1[i - l..i][l - 1] == s1[i - 1];
      assert s2[j - l..j][l - 1] == s2[j - 1];
      assert s1[i - l..i - 1] == s1[i - l..i][..l - 1];
      assert s2[j - l..j - 1] == s2[j - l..j][..l - 1];
    }
  }

  /** An empty prefix has only the empty common suffix. */
  lemma EmptyPrefix(s1: seq<char>, s2: seq<char>, i: int, j: int)
    requires 0 <= i <= |s1| && 0 <= j <= |s2| && (i == 0 || j == 0)
    ensures LongestSuffix(s1, s2, i, j, 0)
  {
  }

  /** The cells of `dp` before row `i`, and those of row `i` before column
      `j`, hold longest common suffixes; the rest are still 0. */
  ghost predicate Computed(s1: seq<char>, s2: seq<char>, dp: array2<int>, i: int, j: int)
    reads dp
    requires dp.Length0 == |s1| + 1 && dp.Length1 == |s2| + 1
  {
    && (forall a, b :: 0 <= a <= |s1| && 0 <= b <= |s2| && (a < i || (a == i && b < j)) ==>
          LongestSuffix(s1, s2, a, b, dp[a, b]))
    && (forall a, b :: 0 <= a <= |s1| && 0 <= b <= |s2| && (a > i || (a == i && b >= j)) ==>
          dp[a, b] == 0)
  }

  /** `maxLength` is at least every common suffix length seen before the
      cell `(i, j)`, and `endAt` is the first row where it is reached. */
  ghost predicate BestSoFar(s1: seq<char>, s2: seq<char>, i: int, j: int, maxLength: int, endAt: int, endJ: int)
  {
    && CommonEnding(s1, s2, endAt, endJ, maxLength) && endAt <= i
    && (maxLength == 0 ==> endAt == 0)
    && (forall a, b, l :: CommonEnding(s1, s2, a, b, l) && (a < i || (a == i && b < j)) ==> l <= maxLength)
    && (forall a, b, l :: CommonEnding(s1, s2, a, b, l) && a < endAt ==> l < maxLength)
  }

  /** A common substring of length `len` ends at `endAt` in `s1`; none is
      longer, none as long ends earlier in `s1`, and when nothing is common
      `endAt` is 0. */
  ghost predicate LongestCommonEnding(s1: seq<char>, s2: seq<char>, endAt: int, len: int)
  {
    && 0 <= len <= endAt <= |s1|
    && (exists j :: CommonEnding(s1, s2, endAt, j, len))
    && (forall a, b, l :: CommonEnding(s1, s2, a, b, l) ==> l <= len)
    && (forall a, b :: a < endAt ==> !CommonEnding(s1, s2, a, b, len))
    && (len == 0 ==> endAt == 0)
  }

  /** Taking in the longest common suffix at `(i, j)` keeps the best so far
      up to date, moving it to `(i, j)` only when strictly longer. */
  lemma BestStep(s1: seq<char>, s2: seq<char>, i: int, j: int, v: int,
                 maxLength: int, endAt: int, endJ: int)
    requires 1 <= i && LongestSuffix(s1, s2, i, j, v) && BestSoFar(s1, s2, i, j, maxLength, endAt, endJ)
    ensures v > maxLength ==> BestSoFar(s1, s2, i, j + 1, v, i, j)
    ensures v <= maxLength ==> BestSoFar(s1, s2, i, j + 1, maxLength, endAt, endJ)
  {
    var best := if v > maxLength then v else maxLength;
    forall a, b, l | CommonEnding(s1, s2, a, b, l) && (a < i || (a == i && b < j + 1))
      ensures l <= best
    {
      if a == i && b == j {
        assert !(v < l <= i) ==> l <= v;
      } else {
        assert a < i || (a == i && b < j);
      }
    }
  }

  /** Writes the longest common suffix at `(i, j)` into the table. */
  method Store(s1: seq<char>, s2: seq<char>, dp: array2<int>, i: int, j: int, v: int)
    requires dp.Length0 == |s1| + 1 && dp.Length1 == |s2| + 1 && 1 <= i <= |s1| && 1 <= j <= |s2|
    requires Computed(s1, s2, dp, i, j) && LongestSuffix(s1, s2, i, j, v)
    modifies dp
    ensures Computed(s1, s2, dp, i, j + 1)
  {
    dp[i, j] := v;
  }

  /** A cell whose common suffix is empty keeps its initial 0. */
  lemma Skip(s1: seq<char>, s2: seq<char>, dp: array2<int>, i: int, j: int)
    requires dp.Length0 == |s1| + 1 && dp.Length1 == |s2| + 1 && 1 <= i <= |s1| && 1 <= j <= |s2|
    requires Computed(s1, s2, dp, i, j) && LongestSuffix(s1, s2, i, j, 0)
    ensures Computed(s1, s2, dp, i, j + 1)
  {
  }

  /** Fills row `i` of the table, keeping the longest common suffix seen
      so far and the row where it ends. */
  method FillRow(s1: seq<char>, s2: seq<char>, dp: array2<int>, i: int,
                 maxLength: int, endAt: int, ghost endJ: int)
    returns (maxLength': int, endAt': int, ghost endJ': int)
    requires dp.Length0 == |s1| + 1 && dp.Length1 == |s2| + 1 && 1 <= i <= |s1|
    requires Computed(s1, s2, dp, i, 1) && BestSoFar(s1, s2, i, 1, maxLength, endAt, endJ)
    modifies dp
    ensures Computed(s1, s2, dp, i + 1, 1) && BestSoFar(s1, s2, i + 1, 1, maxLength', endAt', endJ')
  {
    maxLength', endAt', endJ' := maxLength, endAt, endJ;
    if i < |s1| {
      EmptyPrefix(s1, s2, i + 1, 0);
    }
    for j := 1 to |s2| + 1
      invariant Computed(s1, s2, dp, i, j) && BestSoFar(s1, s2, i, j, maxLength', endAt', endJ')
    {
      SuffixStep(s1, s2, i, j, dp[i - 1, j - 1]);
      if s1[i - 1] == s2[j - 1] {
        var extended := dp[i - 1, j - 1] + 1;
        Store(s1, s2, dp, i, j, extended);
        BestStep(s1, s2, i, j, extended, maxLength', endAt', endJ');
        if extended > maxLength' {
          maxLength' := extended;
          endAt', endJ' := i, j;
        }
      } else {
        Skip(s1, s2, dp, i, j);
        BestStep(s1, s2, i, j, 0, maxLength', endAt', endJ');
      }
    }
  }

  /** The 1-based inclusive bounds in `s1` of a longest substring that also
      occurs in `s2`, the one ending first in `s1`; `(1, 0)` when the two
      strings share no character. */
  method LongestCommonSubstring(s1: seq<char>, s2: seq<char>) returns (first: int, last: int)
    ensures first >= 1 && LongestCommonEnding(s1, s2, last, last - first + 1)
  {
    var n1, n2 := |s1|, |s2|;
    var dp := new int[n1 + 1, n2 + 1]((_, _) => 0);
    var maxLength, endAt := 0, 0;
    ghost var endJ := 0;
    forall b | 0 <= b <= n2
      ensures LongestSuffix(s1, s2, 0, b, 0)
    {
      EmptyPrefix(s1, s2, 0, b);
    }
    if n1 > 0 {
      EmptyPrefix(s1, s2, 1, 0);
    }
    for i := 1 to n1 + 1
      invariant Computed(s1, s2, dp, i, 1) && BestSoFar(s1, s2, i, 1, maxLength, endAt, endJ)
    {
      maxLength, endAt, endJ := FillRow(s1, s2, dp, i, maxLength, endAt, endJ);
    }
    first, last := endAt - maxLength + 1, endAt;
  }
}
