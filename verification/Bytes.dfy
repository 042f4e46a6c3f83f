/** Bytes, big-endian cells and four-byte alignment: what every part of the model stores. */
module Bytes {

  type byte = x: int | 0 <= x < 256

  /** A run of bytes: property values, and names without their terminating NUL. */
  type Str = seq<byte>

  const U32: int := 0x1_0000_0000
  const INT_MAX: int := 0x7fff_ffff

  function Align4(n: nat): (r: nat)
    ensures n <= r < n + 4
  {
    (n + 3) / 4 * 4
  }

  predicate Aligned(n: int) {
    n % 4 == 0
  }

  lemma AlignFacts(n: nat)
    ensures Aligned(Align4(n))
    ensures Aligned(n) ==> Align4(n) == n
  {
  }

  lemma AlignedSum(a: int, b: int)
    requires Aligned(a) && Aligned(b)
    ensures Aligned(a + b)
  {
  }

  lemma AlignShift(a: nat, n: nat)
    requires Aligned(a)
    ensures Align4(a + n) == a + Align4(n)
  {
    assert a + n + 3 == 4 * (a / 4) + (n + 3);
  }

  /** The big-endian 32-bit cell at offset i. */
  function Get32(b: Str, i: nat): (v: nat)
    requires i + 4 <= |b|
    ensures v < U32
  {
    (b[i] as int) * 0x100_0000 + (b[i + 1] as int) * 0x1_0000 + (b[i + 2] as int) * 0x100 + b[i + 3] as int
  }

  /** The big-endian encoding of a 32-bit value. */
  function Put32(v: nat): (b: Str)
    requires v < U32
    ensures |b| == 4
  {
    [v / 0x100_0000, v / 0x1_0000 % 0x100, v / 0x100 % 0x100, v % 0x100]
  }

  lemma PutGet32(v: nat)
    requires v < U32
    ensures Get32(Put32(v), 0) == v
  {
    var a, b, c := v / 0x100, v / 0x1_0000, v / 0x100_0000;
    assert a / 0x100 == b && b / 0x100 == c;
    assert v == a * 0x100 + v % 0x100 && a == b * 0x100 + a % 0x100 && b == c * 0x100 + b % 0x100;
  }

  lemma GetPut32(b: Str)
    requires |b| == 4
    ensures Put32(Get32(b, 0)) == b
  {
    var v := Get32(b, 0);
    assert v / 0x100 == (b[0] as int) * 0x1_0000 + (b[1] as int) * 0x100 + b[2] as int;
    assert v / 0x1_0000 == (b[0] as int) * 0x100 + b[1] as int;
    assert v / 0x100_0000 == b[0];
  }

  lemma Get32Slice(b: Str, lo: nat, hi: nat, i: nat)
    requires lo + i + 4 <= hi <= |b|
    ensures Get32(b[lo..hi], i) == Get32(b, lo + i)
  {
  }

  /** The size bytes of m from byte lo on. */
  function Block(m: Str, lo: nat, size: nat): (b: Str)
    requires lo + size <= |m|
    ensures |b| == size
  {
    m[lo..lo + size]
  }

  predicate SameStart(s: Str, t: Str, n: nat) {
    n <= |s| && n <= |t| && t[..n] == s[..n]
  }

  function Min(a: nat, b: nat): nat {
    if a < b then a else b
  }

  lemma SliceSlice<T>(s: seq<T>, a: nat, b: nat, lo: nat, hi: nat)
    requires a <= b <= |s| && lo <= hi && a + hi <= b
    ensures s[a..b][lo..hi] == s[a + lo..a + hi]
  {
    var x, y := s[a..b][lo..hi], s[a + lo..a + hi];
    assert |x| == |y|;
    assert forall k | 0 <= k < |x| :: x[k] == s[a..b][lo + k] == y[k];
  }

  /** b with the bytes from offset i on replaced by those of d. */
  function Overwrite(b: Str, i: nat, d: Str): (r: Str)
    requires i + |d| <= |b|
    ensures |r| == |b|
  {
    b[..i] + d + b[i + |d|..]
  }

  lemma OverwriteCell(b: Str, i: nat, v: nat)
    requires i + 4 <= |b| && v < U32
    ensures Get32(Overwrite(b, i, Put32(v)), i) == v
  {
    var r := Overwrite(b, i, Put32(v));
    assert r[i..i + 4] == Put32(v);
    Get32Slice(r, i, i + 4, 0);
    PutGet32(v);
  }

  lemma OverwriteElse(b: Str, i: nat, d: Str, j: nat)
    requires i + |d| <= |b| && j + 4 <= |b| && (j + 4 <= i || i + |d| <= j)
    ensures Get32(Overwrite(b, i, d), j) == Get32(b, j)
  {
  }

  lemma OverwriteBlock(b: Str, i: nat, d: Str)
    requires i + |d| <= |b|
    ensures Block(Overwrite(b, i, d), i, |d|) == d
  {
  }

  /** A byte of the result: the new one inside, the old one outside. */
  lemma OverwriteAt(b: Str, i: nat, d: Str, k: nat)
    requires i + |d| <= |b| && k < |b|
    ensures Overwrite(b, i, d)[k] == if i <= k < i + |d| then d[k - i] else b[k]
  {
  }

  lemma OverwriteApart(b: Str, i: nat, d: Str, lo: nat, size: nat)
    requires i + |d| <= |b| && lo + size <= |b| && (lo + size <= i || i + |d| <= lo)
    ensures Block(Overwrite(b, i, d), lo, size) == Block(b, lo, size)
  {
    hide Overwrite;
    var x, y := Block(Overwrite(b, i, d), lo, size), Block(b, lo, size);
    forall k | 0 <= k < size
      ensures x[k] == y[k]
    {
      OverwriteAt(b, i, d, lo + k);
    }
  }

  lemma OverwriteInside(b: Str, lo: nat, size: nat, o: nat, d: Str)
    requires lo + size <= |b| && o + |d| <= size
    ensures Block(Overwrite(b, lo + o, d), lo, size) == Overwrite(Block(b, lo, size), o, d)
  {
    hide Overwrite;
    var x, y := Block(Overwrite(b, lo + o, d), lo, size), Overwrite(Block(b, lo, size), o, d);
    forall k | 0 <= k < size
      ensures x[k] == y[k]
    {
      OverwriteAt(b, lo + o, d, lo + k);
      OverwriteAt(Block(b, lo, size), o, d, k);
    }
  }

  lemma Associate<T>(a: seq<T>, b: seq<T>, c: seq<T>, d: seq<T>)
    ensures a + (b + c + d) == a + b + c + d && a + (b + c) + d == a + b + c + d
  {
  }
}
