/** Manacher's longest-palindrome algorithm without sentinels: the
    expansion checks both ends of the interleaved string, and the result is
    the palindromic substring itself. */
module GuardedManacher {
  import opened Palindromes

  /** Builds '#', then "c#" for each character `c` of `s`. */
  method Transform(s: seq<char>) returns (t: seq<char>)
    ensures Interleaved(t, s, 1)
  {
    t := "#";
    for k := 0 to |s|
      invariant |t| == 2 * k + 1
      invariant forall j :: 0 <= j < k ==> t[2 * j + 1] == s[j]
      invariant forall j :: 0 <= j <= k ==> t[2 * j] == '#'
    {
      t := t + [s[k]];
      t := t + "#";
    }
  }

  /** Expands the palindrome at `i` from the radius already in `P[i]` while
      both neighbours exist and are equal. */
  method Expand(t: seq<char>, P: array<int>, i: int)
    requires P.Length == |t| && 0 <= i < |t|
    requires PalAround(t, i, P[i]) && 0 <= P[i]
    modifies P
    ensures MaxRadius(t, i, P[i])
    ensures forall j :: 0 <= j < P.Length && j != i ==> P[j] == old(P[j])
  {
    var n := |t|;
    while i + P[i] + 1 < n && i - P[i] - 1 >= 0 && t[i + P[i] + 1] == t[i - P[i] - 1]
      invariant PalAround(t, i, P[i]) && 0 <= P[i]
      invariant forall j :: 0 <= j < P.Length && j != i ==> P[j] == old(P[j])
      decreases n - P[i]
    {
      assert Reflects(t, i, P[i] + 1);
      P[i] := P[i] + 1;
    }
    assert !Reflects(t, i, P[i] + 1);
  }

  /** Seeds the radius at `i` from its mirror image inside the palindrome
      reaching furthest right, then expands it. */
  method SeedAndExpand(t: seq<char>, P: array<int>, i: int, center: int, right: int)
    requires P.Length == |t| && 0 <= center <= i < |t| && P[i] == 0
    requires forall j :: 0 <= j < i ==> MaxRadius(t, j, P[j])
    requires right == center + P[center]
    modifies P
    ensures MaxRadius(t, i, P[i])
    ensures forall j :: 0 <= j < P.Length && j != i ==> P[j] == old(P[j])
  {
    var mirror := 2 * center - i;
    if i < right {
      MirrorBound(t, center, P[center], i, P[mirror]);
      P[i] := Min(right - i, P[mirror]);
    }
    Expand(t, P, i);
  }

  /** The leftmost longest palindromic substring of `s`; empty only for the
      empty string. */
  method LongestPalindrome(s: seq<char>) returns (r: seq<char>)
    ensures exists start :: LongestPalindromeAt(s, start, |r|) && r == s[start..start + |r|]
    ensures |s| > 0 ==> |r| > 0
  {
    if |s| == 0 {
      assert LongestPalindromeAt(s, 0, 0);
      return "";
    }
    var t := Transform(s);
    var n := |t|;
    var P := new int[n](_ => 0);
    var center, right := 0, 0;
    var maxLen, maxCenter := 0, 0;
    for i := 0 to n
      invariant forall j :: 0 <= j < i ==> MaxRadius(t, j, P[j])
      invariant forall j :: i <= j < n ==> P[j] == 0
      invariant 0 <= center <= i && center < n && right == center + P[center]
      invariant forall j :: 0 <= j < i ==> P[j] <= maxLen
      invariant 0 <= maxCenter < n && forall j :: 0 <= j < maxCenter ==> P[j] < maxLen
      invariant 0 <= maxLen && (maxLen == 0 ==> maxCenter == 0)
      invariant maxLen != 0 ==> maxCenter < i && P[maxCenter] == maxLen
    {
      SeedAndExpand(t, P, i, center, right);
      if i + P[i] > right {
        center := i;
        right := i + P[i];
      }
      if P[i] > maxLen {
        maxLen := P[i];
        maxCenter := i;
      }
    }
    ScanFindsLongest(t, s, 1, P[..], 0, n, maxCenter, maxLen);
    var start := (maxCenter - maxLen) / 2;
    r := s[start..start + maxLen];
    assert IsPalindrome(s[0..1]);
  }
}
