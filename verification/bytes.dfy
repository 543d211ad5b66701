/**
  Bytes and the fixed-width little-endian integers the formats are built from.
  Every integer in the model is unbounded; the 32- and 64-bit widths of the
  source are written out here once.
 */
module Bytes {

  type byte = x: int | 0 <= x < 256

  const Two31: int := 0x8000_0000
  const Two32: int := 0x1_0000_0000
  const Two64: int := 0x1_0000_0000_0000_0000

  /** The ASCII text "CAFF": the magic both the upload gate and the transcoder look for. */
  const CaffMagic: seq<byte> := [0x43, 0x41, 0x46, 0x46]

  predicate IsInt32(v: int) {
    -Two31 <= v < Two31
  }

  function Pow256(n: nat): (p: nat)
    ensures p >= 1
  {
    if n == 0 then 1 else 256 * Pow256(n - 1)
  }

  /** The unsigned value of `s` read little-endian: `s[0]` is the least significant byte. */
  function LeUnsigned(s: seq<byte>): (v: nat)
    ensures v < Pow256(|s|)
  {
    if |s| == 0 then 0
    else
      var rest := LeUnsigned(s[1..]);
      assert rest + 1 <= Pow256(|s| - 1);
      assert 256 * rest + 256 <= 256 * Pow256(|s| - 1);
      s[0] + 256 * rest
  }

  /** The `n` little-endian bytes of `v`. */
  function LeBytes(v: nat, n: nat): (s: seq<byte>)
    requires v < Pow256(n)
    ensures |s| == n
  {
    if n == 0 then [] else [v % 256] + LeBytes(v / 256, n - 1)
  }

  lemma {:induction false} LeValueRoundTrip(v: nat, n: nat)
    requires v < Pow256(n)
    ensures LeUnsigned(LeBytes(v, n)) == v
  {
    if n > 0 {
      LeValueRoundTrip(v / 256, n - 1);
      assert LeBytes(v, n)[1..] == LeBytes(v / 256, n - 1);
    }
  }

  lemma {:induction false} LeBytesRoundTrip(s: seq<byte>)
    ensures LeBytes(LeUnsigned(s), |s|) == s
  {
    if |s| > 0 {
      LeBytesRoundTrip(s[1..]);
      var rest := LeUnsigned(s[1..]);
      assert (s[0] + 256 * rest) % 256 == s[0];
      assert (s[0] + 256 * rest) / 256 == rest;
      assert s == [s[0]] + s[1..];
    }
  }

  /** The first byte is the least significant: one step of `LeUnsigned`. */
  lemma LeUnsignedStep(s: seq<byte>)
    requires |s| > 0
    ensures LeUnsigned(s) == s[0] + 256 * LeUnsigned(s[1..])
  {
  }

  /** Four little-endian bytes, weighted out. */
  lemma LeUnsigned4(s: seq<byte>)
    requires |s| == 4
    ensures LeUnsigned(s) == s[0] as int + 0x100 * (s[1] as int) + 0x1_0000 * (s[2] as int) + 0x100_0000 * (s[3] as int)
  {
    var t1 := s[1..];
    var t2 := t1[1..];
    var t3 := t2[1..];
    assert t3[1..] == [];
    LeUnsignedStep(t3);
    LeUnsignedStep(t2);
    LeUnsignedStep(t1);
    LeUnsignedStep(s);
  }

  /** Eight little-endian bytes, weighted out. */
  lemma LeUnsigned8(s: seq<byte>)
    requires |s| == 8
    ensures LeUnsigned(s) == s[0] as int + 0x100 * (s[1] as int) + 0x1_0000 * (s[2] as int) + 0x100_0000 * (s[3] as int)
      + 0x1_0000_0000 * (s[4] as int) + 0x100_0000_0000 * (s[5] as int) + 0x1_0000_0000_0000 * (s[6] as int) + 0x100_0000_0000_0000 * (s[7] as int)
  {
    var t4 := s[4..];
    LeUnsigned4(t4);
    assert s[..4] + t4 == s;
    var t1 := s[1..];
    var t2 := t1[1..];
    var t3 := t2[1..];
    assert t3[1..] == t4;
    LeUnsignedStep(t3);
    LeUnsignedStep(t2);
    LeUnsignedStep(t1);
    LeUnsignedStep(s);
  }

  /** `BitConverter.ToInt32` on a little-endian host: two's complement of four bytes. */
  function ToInt32(s: seq<byte>): (v: int)
    requires |s| == 4
    ensures IsInt32(v)
    ensures v >= 0 <==> s[3] < 0x80
  {
    var u := s[0] as int + 0x100 * (s[1] as int) + 0x1_0000 * (s[2] as int) + 0x100_0000 * (s[3] as int);
    if u < Two31 then u else u - Two32
  }

  /** The four bytes a little-endian writer produces for a 32-bit signed value. */
  function FromInt32(v: int): (s: seq<byte>)
    requires IsInt32(v)
    ensures |s| == 4
  {
    assert Pow256(4) == Two32;
    LeBytes(if v >= 0 then v else v + Two32, 4)
  }

  lemma Int32RoundTrip(v: int)
    requires IsInt32(v)
    ensures ToInt32(FromInt32(v)) == v
  {
    assert Pow256(4) == Two32;
    LeValueRoundTrip(if v >= 0 then v else v + Two32, 4);
    LeUnsigned4(FromInt32(v));
  }

  lemma Int32BytesRoundTrip(s: seq<byte>)
    requires |s| == 4
    ensures FromInt32(ToInt32(s)) == s
  {
    assert Pow256(4) == Two32;
    LeUnsigned4(s);
    LeBytesRoundTrip(s);
  }

  /** A packed `uint64_t` read on a little-endian host. */
  function ToUInt64(s: seq<byte>): (v: nat)
    requires |s| == 8
    ensures v < Two64
  {
    s[0] as int + 0x100 * (s[1] as int) + 0x1_0000 * (s[2] as int) + 0x100_0000 * (s[3] as int)
      + 0x1_0000_0000 * (s[4] as int) + 0x100_0000_0000 * (s[5] as int) + 0x1_0000_0000_0000 * (s[6] as int) + 0x100_0000_0000_0000 * (s[7] as int)
  }

  /** The eight bytes of a packed `uint64_t` on a little-endian host. */
  function FromUInt64(v: nat): (s: seq<byte>)
    requires v < Two64
    ensures |s| == 8
  {
    assert Pow256(8) == Two64;
    LeBytes(v, 8)
  }

  lemma UInt64RoundTrip(v: nat)
    requires v < Two64
    ensures ToUInt64(FromUInt64(v)) == v
  {
    assert Pow256(8) == Two64;
    LeValueRoundTrip(v, 8);
    LeUnsigned8(FromUInt64(v));
  }

  lemma UInt64BytesRoundTrip(s: seq<byte>)
    requires |s| == 8
    ensures FromUInt64(ToUInt64(s)) == s
  {
    assert Pow256(8) == Two64;
    LeUnsigned8(s);
    LeBytesRoundTrip(s);
  }

  /** A slice of a suffix is a slice of the whole. */
  lemma SliceOfSuffix<T>(s: seq<T>, start: nat, lo: nat, hi: nat)
    requires start <= lo <= hi <= |s|
    ensures s[start..][lo - start .. hi - start] == s[lo..hi]
  {
    assert forall i :: 0 <= i < hi - lo ==> s[start..][lo - start .. hi - start][i] == s[lo..hi][i];
  }

  /** The first `k` elements of a slice are the slice of that length. */
  lemma SliceOfSlice<T>(s: seq<T>, lo: nat, hi: nat, k: nat)
    requires lo + k <= hi <= |s|
    ensures s[lo..hi][..k] == s[lo .. lo + k]
  {
  }

  /** A slice that spells `a + b` splits into a slice spelling `a` and one spelling `b`. */
  lemma SliceSplit<T>(s: seq<T>, lo: nat, a: seq<T>, b: seq<T>)
    requires lo + |a| + |b| <= |s| && s[lo .. lo + |a| + |b|] == a + b
    ensures s[lo .. lo + |a|] == a
    ensures s[lo + |a| .. lo + |a| + |b|] == b
  {
    var whole, left, right := s[lo .. lo + |a| + |b|], s[lo .. lo + |a|], s[lo + |a| .. lo + |a| + |b|];
    assert forall i :: 0 <= i < |a| ==> left[i] == whole[i];
    assert forall i :: 0 <= i < |b| ==> right[i] == whole[|a| + i];
  }

  /** The pieces of `head + (mid + last) + tail` sit where they were put. */
  lemma Pieces<T>(head: seq<T>, mid: seq<T>, last: seq<T>, tail: seq<T>)
    ensures var s := head + (mid + last) + tail;
      && s[|head| .. |head| + |mid|] == mid
      && s[|head| + |mid| .. |head| + |mid| + |last|] == last
  {
    var s := head + (mid + last) + tail;
    assert forall i :: 0 <= i < |mid| ==> s[|head| .. |head| + |mid|][i] == mid[i];
    assert forall i :: 0 <= i < |last| ==> s[|head| + |mid| .. |head| + |mid| + |last|][i] == last[i];
  }

  /** Appending leaves a slice of the front unchanged. */
  lemma PrefixSlice<T>(s: seq<T>, tail: seq<T>, lo: nat, hi: nat)
    requires lo <= hi <= |s|
    ensures (s + tail)[lo..hi] == s[lo..hi]
  {
    assert forall i :: 0 <= i < hi - lo ==> (s + tail)[lo..hi][i] == s[lo..hi][i];
  }
}
