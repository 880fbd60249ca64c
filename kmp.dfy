/** Knuth–Morris–Pratt substring search with its failure table (the
    "longest proper prefix that is also a suffix" array). */
module Kmp {

  /** `pattern[..l]` is a proper border of `pattern[..q]`: a prefix of it
      shorter than `q` that is also its suffix. */
  predicate IsBorder(pattern: seq<char>, q: int, l: int)
  {
    0 <= l < q <= |pattern| && pattern[..l] == pattern[q - l..q]
  }

  /** `l` is the length of the longest proper border of `pattern[..q]`. */
  predicate Longest(pattern: seq<char>, q: int, l: int)
  {
    IsBorder(pattern, q, l) && forall l' :: l < l' < q ==> !IsBorder(pattern, q, l')
  }

  /** No border of `pattern[..q]` longer than `len` can be extended by the
      next character `pattern[q]`. */
  predicate NoLongerExtends(pattern: seq<char>, q: int, len: int)
  {
    q < |pattern| ==> forall l :: len < l < q && IsBorder(pattern, q, l) ==> pattern[l] != pattern[q]
  }

  /** The pattern occurs in the text at position `s`. */
  predicate MatchAt(text: seq<char>, pattern: seq<char>, s: int)
  {
    0 <= s && s + |pattern| <= |text| && text[s..s + |pattern|] == pattern
  }

  /** A border followed by the next character is a border one longer. */
  lemma BorderExtend(pattern: seq<char>, q: int, l: int)
    requires q < |pattern| && IsBorder(pattern, q, l) && pattern[l] == pattern[q]
    ensures IsBorder(pattern, q + 1, l + 1)
  {
    assert pattern[..l + 1] == pattern[..l] + [pattern[l]];
    assert pattern[q - l..q + 1] == pattern[q - l..q] + [pattern[q]];
  }

  /** A non-empty border of `pattern[..q + 1]` is a border of `pattern[..q]`
      followed by the character `pattern[q]`. */
  lemma BorderShrink(pattern: seq<char>, q: int, l: int)
    requires q < |pattern| && 0 < l
    ensures IsBorder(pattern, q + 1, l) ==> IsBorder(pattern, q, l - 1) && pattern[l - 1] == pattern[q]
  {
    if IsBorder(pattern, q + 1, l) {
      var a, b := pattern[..l], pattern[q + 1 - l..q + 1];
      assert forall k :: 0 <= k < l ==> pattern[k] == a[k] == b[k] == pattern[q + 1 - l + k];
      assert pattern[l - 1] == pattern[q + 1 - l + (l - 1)];
      assert pattern[..l - 1] == pattern[q + 1 - l..q];
    }
  }

  /** Shorter borders of a string are exactly the borders of its border. */
  lemma BorderOfBorder(pattern: seq<char>, q: int, len: int, l: int)
    requires IsBorder(pattern, q, len) && 0 <= l < len
    ensures IsBorder(pattern, q, l) <==> IsBorder(pattern, len, l)
  {
    assert pattern[q - l..q] == pattern[q - len..q][len - l..];
    assert pattern[len - l..len] == pattern[..len][len - l..];
  }

  /** Extending the candidate border gives the longest border one further. */
  lemma ExtendIsLongest(pattern: seq<char>, i: int, len: int)
    requires i < |pattern| && IsBorder(pattern, i, len) && pattern[len] == pattern[i]
    requires NoLongerExtends(pattern, i, len)
    ensures Longest(pattern, i + 1, len + 1)
  {
    BorderExtend(pattern, i, len);
    forall l' {:trigger IsBorder(pattern, i + 1, l')} | len + 1 < l' < i + 1
      ensures !IsBorder(pattern, i + 1, l')
    {
      BorderShrink(pattern, i, l');
    }
  }

  /** When no border extends, not even the empty one, the longest border
      one further is empty. */
  lemma NoneIsLongest(pattern: seq<char>, i: int)
    requires 0 < i < |pattern| && pattern[0] != pattern[i]
    requires NoLongerExtends(pattern, i, 0)
    ensures Longest(pattern, i + 1, 0)
  {
    forall l' {:trigger IsBorder(pattern, i + 1, l')} | 0 < l' < i + 1
      ensures !IsBorder(pattern, i + 1, l')
    {
      BorderShrink(pattern, i, l');
    }
  }

  /** Falling back to the longest border of the candidate keeps the
      candidate a border and loses no extensible border. */
  lemma FallBack(pattern: seq<char>, i: int, len: int, shorter: int)
    requires i < |pattern| && 0 < len && IsBorder(pattern, i, len) && pattern[len] != pattern[i]
    requires NoLongerExtends(pattern, i, len) && Longest(pattern, len, shorter)
    ensures IsBorder(pattern, i, shorter) && NoLongerExtends(pattern, i, shorter)
  {
    BorderOfBorder(pattern, i, len, shorter);
    forall l | shorter < l < i && IsBorder(pattern, i, l)
      ensures pattern[l] != pattern[i]
    {
      if l < len {
        BorderOfBorder(pattern, i, len, l);
      }
    }
  }

  /** Builds the failure table: entry `i` is the length of the longest
      proper border of `pattern[..i + 1]`. */
  method BuildLps(pattern: seq<char>) returns (lps: seq<int>)
    requires |pattern| > 0
    ensures |lps| == |pattern|
    ensures forall i :: 0 <= i < |pattern| ==> Longest(pattern, i + 1, lps[i])
  {
    var m := |pattern|;
    lps := seq(m, _ => 0);
    var i, length := 1, 0;
    while i < m
      invariant 1 <= i <= m && |lps| == m
      invariant forall j :: 0 <= j < i ==> Longest(pattern, j + 1, lps[j])
      invariant IsBorder(pattern, i, length) && NoLongerExtends(pattern, i, length)
      decreases m - i, length
    {
      if pattern[i] == pattern[length] {
        ExtendIsLongest(pattern, i, length);
        lps := lps[i := length + 1];
        i, length := i + 1, length + 1;
      } else if length > 0 {
        FallBack(pattern, i, length, lps[length - 1]);
        length := lps[length - 1];
      } else {
        NoneIsLongest(pattern, i);
        lps := lps[i := 0];
        i := i + 1;
      }
    }
  }

  /** A matched prefix followed by one more equal character is a longer
      matched prefix. */
  lemma MatchStep(text: seq<char>, pattern: seq<char>, i: int, k: int)
    requires 0 <= k <= i < |text| && k < |pattern| && text[i - k..i] == pattern[..k]
    requires text[i] == pattern[k]
    ensures text[i - k..i + 1] == pattern[..k + 1]
  {
    assert text[i - k..i + 1] == text[i - k..i] + [text[i]];
    assert pattern[..k + 1] == pattern[..k] + [pattern[k]];
  }

  /** A mismatch right after a matched prefix rules out an occurrence
      where that prefix starts. */
  lemma Mismatch(text: seq<char>, pattern: seq<char>, i: int, k: int)
    requires 0 <= k <= i < |text| && k < |pattern| && text[i] != pattern[k]
    ensures !MatchAt(text, pattern, i - k)
  {
    if i - k + |pattern| <= |text| {
      assert text[i - k..i - k + |pattern|][k] == text[i];
    }
  }

  /** After a mismatch, no occurrence starts before the partial match its
      longest border leaves, which is still matched. */
  lemma ShiftSkips(text: seq<char>, pattern: seq<char>, i: int, k: int, shorter: int)
    requires 0 < k < |pattern| && k <= i < |text| && text[i] != pattern[k]
    requires text[i - k..i] == pattern[..k] && Longest(pattern, k, shorter)
    requires forall s :: s < i - k ==> !MatchAt(text, pattern, s)
    ensures text[i - shorter..i] == pattern[..shorter]
    ensures forall s :: s < i - shorter ==> !MatchAt(text, pattern, s)
  {
    assert text[i - shorter..i] == text[i - k..i][k - shorter..];
    Mismatch(text, pattern, i, k);
    forall s | i - k < s < i - shorter
      ensures !MatchAt(text, pattern, s)
    {
      MatchIsBorder(text, pattern, i, k, s);
    }
  }

  /** An occurrence starting inside a matched prefix makes the part of the
      prefix it covers a border of the prefix. */
  lemma MatchIsBorder(text: seq<char>, pattern: seq<char>, i: int, k: int, s: int)
    requires 0 < k < |pattern| && k <= i <= |text| && text[i - k..i] == pattern[..k]
    requires i - k < s < i
    ensures MatchAt(text, pattern, s) ==> IsBorder(pattern, k, i - s)
  {
    if s + |pattern| <= |text| {
      var l := i - s;
      assert text[s..i] == text[s..s + |pattern|][..l];
      assert text[s..i] == text[i - k..i][k - l..];
      assert pattern[k - l..k] == pattern[..k][k - l..];
    }
  }

  /** Returns the leftmost position where `pattern` occurs in `text`, 0 for
      an empty pattern and -1 when it does not occur. */
  method Search(text: seq<char>, pattern: seq<char>) returns (r: int)
    ensures r == -1 <==> forall s :: !MatchAt(text, pattern, s)
    ensures r != -1 ==> MatchAt(text, pattern, r) && forall s :: s < r ==> !MatchAt(text, pattern, s)
    ensures |pattern| == 0 ==> r == 0
  {
    if |pattern| == 0 {
      assert MatchAt(text, pattern, 0);
      return 0;
    }
    var m, n := |pattern|, |text|;
    var lps := BuildLps(pattern);
    var i, k := 0, 0;
    while i < n
      invariant 0 <= k < m && k <= i <= n
      invariant text[i - k..i] == pattern[..k]
      invariant forall s :: s < i - k ==> !MatchAt(text, pattern, s)
      decreases n - i, k
    {
      if text[i] == pattern[k] {
        MatchStep(text, pattern, i, k);
        i, k := i + 1, k + 1;
        if k == m {
          assert MatchAt(text, pattern, i - k);
          return i - k;
        }
      } else if k > 0 {
        ShiftSkips(text, pattern, i, k, lps[k - 1]);
        k := lps[k - 1];
      } else {
        Mismatch(text, pattern, i, 0);
        i := i + 1;
      }
    }
    forall s
      ensures !MatchAt(text, pattern, s)
    {
      if s >= i - k {
        assert s + m > n;
      }
    }
    return -1;
  }
}
