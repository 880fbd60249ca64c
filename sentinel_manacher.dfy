/** Manacher's longest-palindrome algorithm over the string framed by the
    sentinels '^' and '$', which stop the expansion without bounds checks;
    it returns the inclusive start and end index of the palindrome. */
module SentinelManacher {
  import opened Palindromes

  /** The sentinels must not occur in the input: the expansion relies on
      them to stop. */
  predicate NoSentinels(s: seq<char>)
  {
    forall k :: 0 <= k < |s| ==> s[k] != '^' && s[k] != '$'
  }

  /** `T` is `s` interleaved with '#', framed by '^' and '$'. */
  predicate Framed(T: seq<char>, s: seq<char>)
  {
    Interleaved(T, s, 2) && T[0] == '^' && T[|T| - 1] == '$'
  }

  /** Builds '^', then "#c" for each character `c` of `s`, then "#$". */
  method Transform(s: seq<char>) returns (T: seq<char>)
    ensures Framed(T, s)
  {
    T := "^";
    for k := 0 to |s|
      invariant |T| == 2 * k + 1 && T[0] == '^'
      invariant forall j :: 0 <= j < k ==> T[2 * j + 2] == s[j]
      invariant forall j :: 0 <= j < k ==> T[2 * j + 1] == '#'
    {
      T := T + "#" + [s[k]];
    }
    T := T + "#$";
  }

  /** The sentinels occur only at the two ends of `T`. */
  lemma SentinelsAtEnds(T: seq<char>, s: seq<char>, j: int)
    requires Framed(T, s) && NoSentinels(s) && 0 <= j < |T|
    ensures T[j] == '^' <==> j == 0
    ensures T[j] == '$' <==> j == |T| - 1
  {
    if 0 < j < |T| - 1 {
      if j % 2 == 1 {
        assert T[2 * ((j - 1) / 2) + 1] == '#';
      } else {
        assert T[2 * ((j - 2) / 2) + 2] == s[(j - 2) / 2];
      }
    }
  }

  /** A palindrome centred strictly inside `T` never reaches a sentinel. */
  lemma SentinelsBound(T: seq<char>, s: seq<char>, i: int, r: int)
    requires Framed(T, s) && NoSentinels(s) && 1 <= i <= |T| - 2
    requires PalAround(T, i, r) && 0 <= r
    ensures InWindow(T, 2, i, r)
  {
    if r > 0 {
      assert Reflects(T, i, r);
      SentinelsAtEnds(T, s, i - r);
      SentinelsAtEnds(T, s, i + r);
    }
  }

  /** Expands the palindrome at `i` from the radius already in `P[i]` until
      the characters around it differ. */
  method Expand(T: seq<char>, ghost s: seq<char>, P: array<int>, i: int)
    requires Framed(T, s) && NoSentinels(s) && P.Length == |T| && 1 <= i <= |T| - 2
    requires PalAround(T, i, P[i]) && 0 <= P[i]
    modifies P
    ensures MaxRadius(T, i, P[i]) && InWindow(T, 2, i, P[i])
    ensures forall j :: 0 <= j < P.Length && j != i ==> P[j] == old(P[j])
  {
    SentinelsBound(T, s, i, P[i]);
    while T[i + 1 + P[i]] == T[i - 1 - P[i]]
      invariant PalAround(T, i, P[i]) && 0 <= P[i] && InWindow(T, 2, i, P[i])
      invariant forall j :: 0 <= j < P.Length && j != i ==> P[j] == old(P[j])
      decreases |T| - P[i]
    {
      assert Reflects(T, i, P[i] + 1);
      P[i] := P[i] + 1;
      SentinelsBound(T, s, i, P[i]);
    }
    assert !Reflects(T, i, P[i] + 1);
  }

  /** Entry `i` of the result is the exact palindrome radius of `T` at `i`,
      for every centre between the sentinels. */
  method ComputeRadii(T: seq<char>, ghost s: seq<char>) returns (radii: seq<int>)
    requires Framed(T, s) && NoSentinels(s)
    ensures |radii| == |T|
    ensures forall i :: 1 <= i < |T| - 1 ==> MaxRadius(T, i, radii[i]) && InWindow(T, 2, i, radii[i])
  {
    var n := |T|;
    var P := new int[n](_ => 0);
    var C, R := 0, 0;
    for i := 1 to n - 1
      invariant forall j :: 0 <= j < i ==> MaxRadius(T, j, P[j])
      invariant forall j :: 1 <= j < i ==> InWindow(T, 2, j, P[j])
      invariant forall j :: i <= j < n ==> P[j] == 0
      invariant 0 <= C < i && R == C + P[C]
    {
      var mirror := 2 * C - i;
      if i < R {
        MirrorBound(T, C, P[C], i, P[mirror]);
        P[i] := Min(R - i, P[mirror]);
      }
      Expand(T, s, P, i);
      if i + P[i] > R {
        C := i;
        R := i + P[i];
      }
    }
    radii := P[..];
  }

  /** Picks the first centre of largest radius between the sentinels. */
  method PickCentre(radii: seq<int>) returns (centerIndex: int, maxLen: int)
    requires |radii| >= 2
    ensures forall j :: 1 <= j < |radii| - 1 ==> radii[j] <= maxLen
    ensures 0 <= centerIndex < |radii| - 1
    ensures forall j :: 1 <= j < centerIndex ==> radii[j] < maxLen
    ensures 0 <= maxLen && (maxLen == 0 ==> centerIndex == 0)
    ensures maxLen != 0 ==> 1 <= centerIndex && radii[centerIndex] == maxLen
  {
    maxLen, centerIndex := 0, 0;
    for i := 1 to |radii| - 1
      invariant forall j :: 1 <= j < i ==> radii[j] <= maxLen
      invariant 0 <= centerIndex < i && forall j :: 1 <= j < centerIndex ==> radii[j] < maxLen
      invariant 0 <= maxLen && (maxLen == 0 ==> centerIndex == 0)
      invariant maxLen != 0 ==> 1 <= centerIndex && radii[centerIndex] == maxLen
    {
      if radii[i] > maxLen {
        maxLen := radii[i];
        centerIndex := i;
      }
    }
  }

  /** The inclusive bounds of the leftmost longest palindromic substring
      of `s`; `(0, -1)` for the empty string. */
  method FindLongestPalindrome(s: seq<char>) returns (start: int, end: int)
    requires NoSentinels(s)
    ensures LongestPalindromeAt(s, start, end - start + 1)
    ensures |s| == 0 ==> start == 0 && end == -1
    ensures |s| > 0 ==> start <= end
  {
    var T := Transform(s);
    var radii := ComputeRadii(T, s);
    var centerIndex, maxLen := PickCentre(radii);
    ScanFindsLongest(T, s, 2, radii, 1, |T| - 1, centerIndex, maxLen);
    start := (centerIndex - maxLen) / 2;
    end := start + maxLen - 1;
    assert |s| > 0 ==> IsPalindrome(s[0..1]);
  }
}
