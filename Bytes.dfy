/**
  Byte sequences and the handful of Python `bytes`/`bytearray` operations both
  scripts rely on: clamped read slices, exact-length slice assignment,
  `find`, and the `struct` little-endian integer decode.
 */
module Bytes {

  newtype byte = b: int | 0 <= b < 256

  function Min(a: int, b: int): int
  {
    if a <= b then a else b
  }

  function Zeros(n: nat): (z: seq<byte>)
    ensures |z| == n
    ensures forall i :: 0 <= i < n ==> z[i] == 0
  {
    seq(n, _ => 0)
  }

  /** A SHA-1 digest: always exactly 20 bytes. */
  type Digest = s: seq<byte> | |s| == 20 witness Zeros(20)

  /** The half-open intervals [a, b) and [c, d) share no position. */
  predicate Disjoint(a: int, b: int, c: int, d: int)
  {
    b <= a || d <= c || b <= c || d <= a
  }

  /**
    Python's read slice `s[lo:hi]` for non-negative bounds: both bounds are
    clamped to the length, and a reversed range gives the empty slice.
   */
  function Slice(s: seq<byte>, lo: nat, hi: nat): (r: seq<byte>)
    ensures lo <= hi <= |s| ==> r == s[lo..hi]
    ensures hi <= |s| && lo <= hi ==> |r| == hi - lo
    ensures |r| == if Min(lo, |s|) <= Min(hi, |s|) then Min(hi, |s|) - Min(lo, |s|) else 0
    ensures forall i :: 0 <= i < |r| ==> lo + i < |s| && r[i] == s[lo + i]
  {
    var a := Min(lo, |s|);
    var b := Min(hi, |s|);
    if a <= b then s[a..b] else []
  }

  /**
    Python's slice assignment `s[at:at+|x|] = x` when the target range lies
    inside `s` and the replacement has exactly its length: the positions of
    the window take `x`, every other position keeps its byte.
   */
  function Overwrite(s: seq<byte>, at: nat, x: seq<byte>): (r: seq<byte>)
    requires at + |x| <= |s|
    ensures |r| == |s|
    ensures r[at..at + |x|] == x
    ensures forall i :: 0 <= i < |s| ==> r[i] == if at <= i < at + |x| then x[i - at] else s[i]
  {
    seq(|s|, i requires 0 <= i < |s| => if at <= i < at + |x| then x[i - at] else s[i])
  }

  /** An overwrite at or beyond position k leaves the first k bytes alone. */
  lemma OverwriteKeepsBelow(s: seq<byte>, at: nat, x: seq<byte>, k: nat)
    requires at + |x| <= |s| && k <= at
    ensures Overwrite(s, at, x)[..k] == s[..k]
  {
  }

  /** An overwrite leaves any range it does not touch as it was. */
  lemma OverwriteOutside(s: seq<byte>, at: nat, x: seq<byte>, lo: nat, hi: nat)
    requires at + |x| <= |s| && lo <= hi <= |s|
    requires Disjoint(at, at + |x|, lo, hi)
    ensures Overwrite(s, at, x)[lo..hi] == s[lo..hi]
  {
    var r := Overwrite(s, at, x);
    assert forall i :: lo <= i < hi ==> r[i] == s[i];
  }

  /** Two overwrites leave any range that neither touches as it was. */
  lemma OverwriteTwiceOutside(s: seq<byte>, at1: nat, x1: seq<byte>, at2: nat, x2: seq<byte>, lo: nat, hi: nat)
    requires at1 + |x1| <= |s| && at2 + |x2| <= |s| && lo <= hi <= |s|
    requires Disjoint(at1, at1 + |x1|, lo, hi) && Disjoint(at2, at2 + |x2|, lo, hi)
    ensures Overwrite(Overwrite(s, at1, x1), at2, x2)[lo..hi] == s[lo..hi]
  {
    OverwriteOutside(s, at1, x1, lo, hi);
    OverwriteOutside(Overwrite(s, at1, x1), at2, x2, lo, hi);
  }

  // ---------------------------------------------------------------------------
  // Search

  /** `needle` occurs in `hay` starting at index i. */
  predicate OccursAt(hay: seq<byte>, needle: seq<byte>, i: int)
  {
    0 <= i && i + |needle| <= |hay| && hay[i..i + |needle|] == needle
  }

  /**
    The first occurrence of `needle` at index `from` or later, or -1 when
    there is none.
   */
  function FindFrom(hay: seq<byte>, needle: seq<byte>, from: nat): (r: int)
    decreases |hay| - from
    ensures r == -1 || (from <= r && OccursAt(hay, needle, r))
    ensures r == -1 ==> forall i :: from <= i ==> !OccursAt(hay, needle, i)
    ensures r != -1 ==> forall i :: from <= i < r ==> !OccursAt(hay, needle, i)
  {
    if |hay| < from + |needle| then -1
    else if hay[from..from + |needle|] == needle then from
    else FindFrom(hay, needle, from + 1)
  }

  /**
    Python's `bytes.find`: the least index at which `needle` occurs, or -1
    when it occurs nowhere.
   */
  function Find(hay: seq<byte>, needle: seq<byte>): (r: int)
    ensures -1 <= r
    ensures r == -1 <==> forall i :: !OccursAt(hay, needle, i)
    ensures r != -1 ==> OccursAt(hay, needle, r)
    ensures forall i :: 0 <= i < r ==> !OccursAt(hay, needle, i)
  {
    FindFrom(hay, needle, 0)
  }

  /** The first occurrence is the unique one with no occurrence before it. */
  lemma FindIsLeast(hay: seq<byte>, needle: seq<byte>, t: nat)
    requires OccursAt(hay, needle, t)
    requires forall i :: 0 <= i < t ==> !OccursAt(hay, needle, i)
    ensures Find(hay, needle) == t
  {
  }

  /**
    Changing bytes only at or after the end of the first occurrence does not
    move it.
   */
  lemma FindPreserved(a: seq<byte>, b: seq<byte>, needle: seq<byte>, k: nat)
    requires Find(a, needle) != -1
    requires Find(a, needle) + |needle| <= k <= |a| && k <= |b|
    requires a[..k] == b[..k]
    ensures Find(b, needle) == Find(a, needle)
  {
    var t := Find(a, needle);
    assert forall j :: 0 <= j < k ==> a[j] == a[..k][j] == b[..k][j] == b[j];
    forall i | 0 <= i && i + |needle| <= k
      ensures OccursAt(b, needle, i) == OccursAt(a, needle, i)
    {
      assert b[i..i + |needle|] == a[i..i + |needle|];
    }
    FindIsLeast(b, needle, t);
  }

  // ---------------------------------------------------------------------------
  // Integer decoding

  function Pow256(n: nat): (p: nat)
    ensures p >= 1
  {
    if n == 0 then 1 else 256 * Pow256(n - 1)
  }

  /** Unsigned little-endian value: the first byte is the least significant. */
  function LittleEndian(s: seq<byte>): nat
  {
    if s == [] then 0 else s[0] as nat + 256 * LittleEndian(s[1..])
  }

  /** Unsigned big-endian value: the first byte is the most significant. */
  function BigEndian(s: seq<byte>): nat
  {
    if s == [] then 0 else s[0] as nat * Pow256(|s| - 1) + BigEndian(s[1..])
  }

  const TwoTo63: int := 0x8000_0000_0000_0000
  const TwoTo64: int := 0x1_0000_0000_0000_0000

  /**
    `struct.unpack('<q', s)`: eight bytes read as a little-endian two's
    complement signed 64-bit integer.
   */
  function Int64LE(s: seq<byte>): (n: int)
    requires |s| == 8
    ensures -TwoTo63 <= n < TwoTo63
  {
    LittleEndianBound(s);
    var u := LittleEndian(s);
    if u < TwoTo63 then u else u - TwoTo64
  }

  lemma {:induction false} LittleEndianBound(s: seq<byte>)
    ensures LittleEndian(s) < Pow256(|s|)
  {
    if s != [] {
      LittleEndianBound(s[1..]);
    }
  }

  lemma {:induction false} LittleEndianZeros(n: nat)
    ensures LittleEndian(Zeros(n)) == 0
  {
    if n > 0 {
      assert Zeros(n)[1..] == Zeros(n - 1);
      LittleEndianZeros(n - 1);
    }
  }

  /**
    Three bytes padded with five zero bytes and read as a signed 64-bit
    little-endian integer give b0 + 256*b1 + 65536*b2, so at most 0xFFFFFF.
   */
  lemma PaddedThreeByteDecode(b: seq<byte>)
    requires |b| == 3
    ensures Int64LE(b + Zeros(5)) == b[0] as int + 256 * b[1] as int + 65536 * b[2] as int
    ensures 0 <= Int64LE(b + Zeros(5)) <= 0xFF_FFFF
  {
    var s := b + Zeros(5);
    assert s[1..][1..][1..] == Zeros(5);
    LittleEndianZeros(5);
    assert LittleEndian(s[1..][1..]) == b[2] as int;
    assert LittleEndian(s[1..]) == b[1] as int + 256 * b[2] as int;
    assert LittleEndian(s) == b[0] as int + 256 * (b[1] as int + 256 * b[2] as int);
  }

  lemma {:induction false} BigEndianBound(s: seq<byte>)
    ensures BigEndian(s) < Pow256(|s|)
  {
    if s != [] {
      var p := Pow256(|s| - 1);
      BigEndianBound(s[1..]);
      MulLeft(s[0] as nat, 255, p);
      assert BigEndian(s) < 255 * p + p == Pow256(|s|);
    }
  }

  /** Leading zero bytes do not change a big-endian value. */
  lemma {:induction false} BigEndianLeadingZeros(n: nat, s: seq<byte>)
    ensures BigEndian(Zeros(n) + s) == BigEndian(s)
  {
    if n > 0 {
      var z := Zeros(n) + s;
      assert z[0] == 0 && z[1..] == Zeros(n - 1) + s;
      BigEndianLeadingZeros(n - 1, s);
    } else {
      assert Zeros(n) + s == s;
    }
  }

  lemma MulLeft(a: nat, b: nat, c: nat)
    requires a <= b
    ensures a * c <= b * c
  {
  }
}
