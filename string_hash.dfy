/** Polynomial rolling hash of byte strings modulo 1e9 + 7 with base 31,
    computed in unsigned 64-bit arithmetic from signed characters, and the
    check that a sequence of strings has pairwise distinct hashes. */
module StringHash {

  /** One byte of a string. */
  type Byte = b: int | 0 <= b < 256

  const MOD: int := 1000000007
  const BASE: int := 31
  /** 2^64: unsigned 64-bit arithmetic is arithmetic modulo this. */
  const U64: int := 0x1_0000_0000_0000_0000

  /** The byte as a (signed) `char`: bytes from 128 on are negative. */
  function SignedChar(b: Byte): (c: int)
    ensures -128 <= c < 128
  {
    if b < 128 then b else b - 256
  }

  /** What a character adds before scaling, `c - 'a' + 1` in `int`. */
  function Digit(b: Byte): int
  {
    SignedChar(b) - 'a' as int + 1
  }

  /** Conversion to, or the result of an operation in, `unsigned long long`. */
  function Wrap(x: int): (r: int)
    ensures 0 <= r < U64
  {
    x % U64
  }

  function Pow(b: int, e: nat): int
  {
    if e == 0 then 1 else b * Pow(b, e - 1)
  }

  /** The hash of `s`: each character's digit, converted to 64 bits and
      scaled by `31^i mod (1e9 + 7)`, added in 64 bits and reduced. */
  function Hash(s: seq<Byte>): int
  {
    if |s| == 0 then 0
    else
      var i := |s| - 1;
      Wrap(Hash(s[..i]) + Wrap(Wrap(Digit(s[i])) * (Pow(BASE, i) % MOD))) % MOD
  }

  /** The polynomial `Σ digit(s[i]) · 31^i` over the integers. */
  function Poly(s: seq<Byte>): int
  {
    if |s| == 0 then 0 else Poly(s[..|s| - 1]) + Digit(s[|s| - 1]) * Pow(BASE, |s| - 1)
  }

  /** Every hash is a residue modulo 1e9 + 7. */
  lemma HashBound(s: seq<Byte>)
    ensures 0 <= Hash(s) < MOD
  {
  }

  /** The empty string hashes to 0. */
  lemma EmptyHash()
    ensures Hash([]) == 0
  {
  }

  /** Adding a multiple of the modulus does not change the residue. */
  lemma ModMultiple(a: int, q: int, m: int)
    requires m > 0
    ensures (q * m + a) % m == a % m
  {
    var d := (q * m + a) / m - a / m - q;
    assert d * m == a % m - (q * m + a) % m;
    assert d >= 1 ==> d * m >= m;
    assert d <= -1 ==> d * m <= -m;
  }

  /** Reducing the summands first gives the same residue. */
  lemma ModSum(a: int, c: int, b: int, m: int)
    requires m > 0
    ensures (a % m + c * (b % m)) % m == (a + c * b) % m
  {
    var qa, qb := a / m, b / m;
    assert a + c * b == (qa + c * qb) * m + (a % m + c * (b % m));
    ModMultiple(a % m + c * (b % m), qa + c * qb, m);
  }

  /** The power kept by the loop: multiplying the residue of `31^i` by 31
      and reducing gives the residue of `31^(i + 1)`. */
  lemma PowStep(i: nat)
    ensures (Pow(BASE, i) % MOD * BASE) % MOD == Pow(BASE, i + 1) % MOD
  {
    ModSum(0, BASE, Pow(BASE, i), MOD);
  }

  /** For strings of the bytes '`' to 127 (lowercase letters among them)
      no 64-bit operation wraps, and the hash is the polynomial reduced
      modulo 1e9 + 7. */
  lemma {:induction false} HashIsPolynomial(s: seq<Byte>)
    requires forall k :: 0 <= k < |s| ==> '`' as int <= s[k] < 128
    ensures Hash(s) == Poly(s) % MOD
  {
    if |s| > 0 {
      var i := |s| - 1;
      HashIsPolynomial(s[..i]);
      var d, p := Digit(s[i]), Pow(BASE, i);
      calc {
        Hash(s);
        Wrap(Hash(s[..i]) + Wrap(Wrap(d) * (p % MOD))) % MOD;
        { NoWrap(Hash(s[..i]), d, p % MOD); }
        (Poly(s[..i]) % MOD + d * (p % MOD)) % MOD;
        { ModSum(Poly(s[..i]), d, p, MOD); }
        (Poly(s[..i]) + d * p) % MOD;
        Poly(s) % MOD;
      }
    }
  }

  /** A digit from 0 to 31 times a residue, plus a residue, stays far
      below 2^64. */
  lemma NoWrap(h: int, d: int, p: int)
    requires 0 <= h < MOD && 0 <= d <= 31 && 0 <= p < MOD
    ensures Wrap(h + Wrap(Wrap(d) * p)) == h + d * p
  {
    Small(d);
    MulBound(d, p);
    Small(d * p);
    Small(h + d * p);
  }

  /** A digit times a residue stays below 31 times the modulus. */
  lemma MulBound(d: int, p: int)
    requires 0 <= d <= 31 && 0 <= p < MOD
    ensures 0 <= d * p < 31 * MOD
  {
    assert (31 - d) * p >= 0;
  }

  /** A value that fits in 64 bits is unchanged by the conversion. */
  lemma Small(x: int)
    requires 0 <= x < U64
    ensures Wrap(x) == x
  {
  }

  /** A character below '`' has a negative digit, which wraps to a huge
      64-bit value before the reduction: "A" does not hash to -31 mod 1e9 + 7. */
  lemma UppercaseWraps()
    ensures Digit('A' as int) == -31
    ensures Hash(['A' as int]) == (U64 - 31) % MOD == 582343977
    ensures (-31) % MOD == 999999976
  {
    var s := ['A' as int];
    assert s[..0] == [];
    assert Wrap(Digit(s[0])) == U64 - 31;
    assert Pow(BASE, 0) % MOD == 1;
    assert Wrap((U64 - 31) * 1) == U64 - 31;
    assert Hash(s) == Wrap(0 + (U64 - 31)) % MOD;
  }

  /** The character '`' has digit 0, so a trailing '`' leaves the hash as it
      was: the different strings "a" and "a`" share a hash. */
  lemma BacktickCollides()
    ensures Hash(['a' as int]) == Hash(['a' as int, '`' as int]) == 1
  {
    var a, ab := ['a' as int], ['a' as int, '`' as int];
    assert a[..0] == [] && Digit(a[0]) == 1 && Pow(BASE, 0) % MOD == 1;
    Small(1);
    assert Hash(a) == Wrap(0 + Wrap(Wrap(1) * 1)) % MOD;
    assert ab[..1] == a && Digit(ab[1]) == 0;
    assert Hash(ab) == Wrap(Hash(a) + Wrap(Wrap(0) * (Pow(BASE, 1) % MOD))) % MOD;
  }

  /** Computes the hash, keeping `31^i mod (1e9 + 7)` as a running power. */
  method ComputeStringHash(inputString: seq<Byte>) returns (hashValue: int)
    ensures hashValue == Hash(inputString)
    ensures 0 <= hashValue < MOD
  {
    hashValue := 0;
    var basePower := 1;
    for i := 0 to |inputString|
      invariant hashValue == Hash(inputString[..i])
      invariant basePower == Pow(BASE, i) % MOD
    {
      assert inputString[..i + 1][..i] == inputString[..i];
      var digit := Wrap(SignedChar(inputString[i]) - 'a' as int + 1);
      hashValue := Wrap(hashValue + Wrap(digit * basePower)) % MOD;
      PowStep(i);
      basePower := (basePower * BASE) % MOD;
    }
    assert inputString[..|inputString|] == inputString;
  }

  /** The hashes of the first `k` strings. */
  ghost function HashesOf(strs: seq<seq<Byte>>, k: nat): set<int>
    requires k <= |strs|
  {
    if k == 0 then {} else HashesOf(strs, k - 1) + {Hash(strs[k - 1])}
  }

  /** A hash is among the first `k` exactly when one of those strings has it. */
  lemma {:induction false} InHashesOf(strs: seq<seq<Byte>>, k: nat, h: int)
    requires k <= |strs|
    ensures h in HashesOf(strs, k) <==> exists i :: 0 <= i < k && Hash(strs[i]) == h
  {
    if k > 0 {
      InHashesOf(strs, k - 1, h);
    }
  }

  /** Reads the strings in order, remembering their hashes, and stops at
      the first string whose hash was seen before. `distinct` tells whether
      all hashes differ; `read` is how many strings were read. */
  method AllDistinct(strs: seq<seq<Byte>>) returns (distinct: bool, read: nat)
    ensures read <= |strs|
    ensures distinct <==> forall i, j :: 0 <= i < j < |strs| ==> Hash(strs[i]) != Hash(strs[j])
    ensures (exists i, j :: 0 <= i < j < |strs| && strs[i] == strs[j]) ==> !distinct
    ensures distinct ==> read == |strs|
    ensures !distinct ==> 0 < read && exists i :: 0 <= i < read - 1 && Hash(strs[i]) == Hash(strs[read - 1])
    ensures forall i, j :: 0 <= i < j < read - 1 ==> Hash(strs[i]) != Hash(strs[j])
  {
    var hashSet: set<int> := {};
    read := 0;
    while read < |strs|
      invariant read <= |strs| && hashSet == HashesOf(strs, read)
      invariant forall i, j :: 0 <= i < j < read ==> Hash(strs[i]) != Hash(strs[j])
    {
      var hashValue := ComputeStringHash(strs[read]);
      read := read + 1;
      InHashesOf(strs, read - 1, hashValue);
      if hashValue in hashSet {
        return false, read;
      }
      hashSet := hashSet + {hashValue};
    }
    distinct := true;
  }
}
