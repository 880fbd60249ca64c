/** What both Manacher variants compute: palindromes, the longest (and
    leftmost) palindromic substring, and palindrome radii in the string
    interleaved with '#' separators. */
module Palindromes {

  predicate IsPalindrome(u: seq<char>)
  {
    forall k :: 0 <= k < |u| ==> u[k] == u[|u| - 1 - k]
  }

  /** The `len` characters of `s` from `start` on form a palindrome. */
  predicate PalindromeAt(s: seq<char>, start: int, len: int)
  {
    0 <= start && 0 <= len && start + len <= |s| && IsPalindrome(s[start..start + len])
  }

  /** `s[start..start + len]` is a palindrome, no palindromic substring of
      `s` is longer, and none of the same length starts earlier. */
  predicate LongestPalindromeAt(s: seq<char>, start: int, len: int)
  {
    && PalindromeAt(s, start, len)
    && (forall a, b :: 0 <= a <= b <= |s| && IsPalindrome(s[a..b]) ==> b - a <= len)
    && (forall a :: 0 <= a < start ==> !PalindromeAt(s, a, len))
  }

  /** The characters at distance `d` on both sides of `i` are equal. */
  predicate Reflects(t: seq<char>, i: int, d: int)
  {
    0 <= d <= i && i + d < |t| && t[i - d] == t[i + d]
  }

  /** `t[i - r..i + r + 1]` is a palindrome centred at `i`. */
  predicate PalAround(t: seq<char>, i: int, r: int)
  {
    0 <= i - r && i + r < |t| && forall d :: 0 < d <= r ==> Reflects(t, i, d)
  }

  /** `r` is the largest radius of a palindrome of `t` centred at `i`. */
  predicate MaxRadius(t: seq<char>, i: int, r: int)
  {
    PalAround(t, i, r) && !PalAround(t, i, r + 1)
  }

  /** `t` is `s` with a '#' before, between and after its characters, the
      characters of `s` sitting at indices `off`, `off + 2`, … */
  predicate Interleaved(t: seq<char>, s: seq<char>, off: int)
  {
    && (off == 1 || off == 2)
    && |t| == 2 * |s| + 2 * off - 1
    && (forall k :: 0 <= k < |s| ==> t[2 * k + off] == s[k])
    && (forall k :: 0 <= k <= |s| ==> t[2 * k + off - 1] == '#')
  }

  function Min(a: int, b: int): (m: int)
    ensures m <= a && m <= b && (m == a || m == b)
  {
    if a < b then a else b
  }

  /** A radius below a palindrome's radius is a palindrome's radius. */
  lemma RadiusAtMost(t: seq<char>, i: int, r: int, p: int)
    requires PalAround(t, i, r) && MaxRadius(t, i, p) && 0 <= r
    ensures r <= p
  {
  }

  /** The mirror shortcut: inside the palindrome centred at `c`, the
      palindrome at `i` is at least as wide as the one at its mirror image,
      clipped to the right edge. */
  lemma MirrorBound(t: seq<char>, c: int, rc: int, i: int, rm: int)
    requires PalAround(t, c, rc) && c < i < c + rc
    requires PalAround(t, 2 * c - i, rm)
    ensures PalAround(t, i, Min(c + rc - i, rm))
  {
    var r := Min(c + rc - i, rm);
    var m := 2 * c - i;
    forall d | 0 < d <= r
      ensures Reflects(t, i, d)
    {
      if i - d > c {
        assert Reflects(t, c, i - d - c);
      } else if i - d < c {
        assert Reflects(t, c, c - (i - d));
      }
      assert t[i - d] == t[m + d];
      assert Reflects(t, m, d);
      assert Reflects(t, c, i + d - c);
    }
  }

  /** The window of a palindrome of `t` stays within the interleaved copy
      of `s` (for the sentinel layout it keeps off the sentinels). */
  predicate InWindow(t: seq<char>, off: int, i: int, r: int)
  {
    off - 1 <= i - r && i + r <= |t| - off
  }

  /** A maximal palindrome of the interleaved string starts and ends on a
      separator. */
  lemma MaxRadiusOnSeparator(t: seq<char>, s: seq<char>, off: int, i: int, r: int)
    requires Interleaved(t, s, off) && MaxRadius(t, i, r) && InWindow(t, off, i, r)
    ensures (i - r - off + 1) % 2 == 0
  {
    if (i - r - off + 1) % 2 != 0 {
      var kl := (i - r - off) / 2;
      var kr := (i + r - off + 2) / 2;
      assert t[2 * kl + off - 1] == '#' && t[2 * kr + off - 1] == '#';
      assert Reflects(t, i, r + 1);
    }
  }

  /** A palindrome of the interleaved string that starts on a separator
      covers a palindrome of `s` of the same length as its radius. */
  lemma Sound(t: seq<char>, s: seq<char>, off: int, i: int, r: int)
    requires Interleaved(t, s, off) && PalAround(t, i, r) && InWindow(t, off, i, r)
    requires 0 <= r && (i - r - off + 1) % 2 == 0
    ensures 0 <= (i - r - off + 1) / 2 && (i - r - off + 1) / 2 + r <= |s|
    ensures IsPalindrome(s[(i - r - off + 1) / 2..(i - r - off + 1) / 2 + r])
  {
    var lo := (i - r - off + 1) / 2;
    assert 2 * lo == i - r - off + 1;
    var u := s[lo..lo + r];
    forall k | 0 <= k < |u|
      ensures u[k] == u[|u| - 1 - k]
    {
      var d := i - (2 * (lo + k) + off);
      if d > 0 {
        assert Reflects(t, i, d);
      } else if d < 0 {
        assert Reflects(t, i, -d);
      }
      assert t[2 * (lo + k) + off] == s[lo + k];
      assert t[2 * (lo + r - 1 - k) + off] == s[lo + r - 1 - k];
    }
  }

  /** Every palindrome of `s` appears, around its own centre, as a
      palindrome of the interleaved string with its length as radius. */
  lemma Complete(t: seq<char>, s: seq<char>, off: int, a: int, b: int)
    requires Interleaved(t, s, off) && 0 <= a < b <= |s| && IsPalindrome(s[a..b])
    ensures PalAround(t, a + b + off - 1, b - a)
  {
    var i := a + b + off - 1;
    forall d | 0 < d <= b - a
      ensures Reflects(t, i, d)
    {
      if (i - d - off) % 2 == 0 {
        var k := (i - d - off) / 2;
        assert t[2 * k + off] == s[k];
        assert s[a..b][k - a] == s[a..b][(b - a) - 1 - (k - a)];
        assert t[2 * (a + b - 1 - k) + off] == s[a + b - 1 - k];
      } else {
        var kl := (i - d - off + 1) / 2;
        var kr := (i + d - off + 1) / 2;
        assert t[2 * kl + off - 1] == '#' && t[2 * kr + off - 1] == '#';
      }
    }
  }

  /** The centre of every non-empty palindrome of `s` inside the
      interleaved string. */
  function CentreOf(off: int, a: int, len: int): int
  {
    2 * a + len + off - 1
  }

  /** The exact radius at the centre of a palindrome of `s` is at least
      its length. */
  lemma RadiusCoversPalindrome(t: seq<char>, s: seq<char>, off: int, a: int, b: int, r: int)
    requires Interleaved(t, s, off) && 0 <= a < b <= |s|
    requires MaxRadius(t, CentreOf(off, a, b - a), r)
    ensures IsPalindrome(s[a..b]) ==> b - a <= r
  {
    if IsPalindrome(s[a..b]) {
      Complete(t, s, off, a, b);
      RadiusAtMost(t, CentreOf(off, a, b - a), b - a, r);
    }
  }

  /** A scan that keeps the first centre of largest radius among exact
      radii finds the leftmost longest palindrome of `s`; `(c - len) / 2`
      is where it starts in `s`. */
  lemma ScanFindsLongest(t: seq<char>, s: seq<char>, off: int, radii: seq<int>,
                         lo: int, hi: int, c: int, len: int)
    requires Interleaved(t, s, off) && |radii| == |t|
    requires 0 <= lo <= off && 2 * |s| + off - 1 <= hi <= |t|
    requires forall j :: lo <= j < hi ==> MaxRadius(t, j, radii[j]) && InWindow(t, off, j, radii[j])
    requires forall j :: lo <= j < hi ==> radii[j] <= len
    requires 0 <= c < hi && forall j :: lo <= j < c ==> radii[j] < len
    requires len == 0 ==> c == 0
    requires len != 0 ==> lo <= c && radii[c] == len
    ensures 0 <= c - len && LongestPalindromeAt(s, (c - len) / 2, len)
  {
    var start := (c - len) / 2;
    if len != 0 {
      MaxRadiusOnSeparator(t, s, off, c, len);
      Sound(t, s, off, c, len);
      assert (c - len - off + 1) / 2 == start;
      assert c == CentreOf(off, start, len);
    } else {
      assert s[0..0] == [];
    }
    NoneLonger(t, s, off, radii, lo, hi, len);
    NoneEarlier(t, s, off, radii, lo, hi, c, len);
  }

  /** With every exact radius at most `len`, no palindrome of `s` is
      longer than `len`. */
  lemma NoneLonger(t: seq<char>, s: seq<char>, off: int, radii: seq<int>, lo: int, hi: int, len: int)
    requires Interleaved(t, s, off) && |radii| == |t|
    requires 0 <= lo <= off && 2 * |s| + off - 1 <= hi <= |t|
    requires forall j :: lo <= j < hi ==> MaxRadius(t, j, radii[j]) && radii[j] <= len
    requires 0 <= len
    ensures forall a, b :: 0 <= a <= b <= |s| && IsPalindrome(s[a..b]) ==> b - a <= len
  {
    forall a, b | 0 <= a <= b <= |s| && IsPalindrome(s[a..b])
      ensures b - a <= len
    {
      if a < b {
        var i := CentreOf(off, a, b - a);
        assert lo <= i < hi;
        RadiusCoversPalindrome(t, s, off, a, b, radii[i]);
      }
    }
  }

  /** With every exact radius before centre `c` below `len`, no palindrome
      of length `len` starts before `(c - len) / 2`. */
  lemma NoneEarlier(t: seq<char>, s: seq<char>, off: int, radii: seq<int>, lo: int, hi: int, c: int, len: int)
    requires Interleaved(t, s, off) && |radii| == |t|
    requires 0 <= lo <= off && 2 * |s| + off - 1 <= hi <= |t|
    requires forall j :: lo <= j < hi ==> MaxRadius(t, j, radii[j])
    requires 0 <= c < hi && forall j :: lo <= j < c ==> radii[j] < len
    requires 0 <= len && (len == 0 ==> c == 0)
    requires len != 0 ==> (c - len - off + 1) % 2 == 0
    ensures forall a :: 0 <= a < (c - len) / 2 ==> !PalindromeAt(s, a, len)
  {
    forall a | 0 <= a < (c - len) / 2
      ensures !PalindromeAt(s, a, len)
    {
      if a + len <= |s| {
        var i := CentreOf(off, a, len);
        assert lo <= i < c;
        RadiusCoversPalindrome(t, s, off, a, a + len, radii[i]);
      }
    }
  }
}
