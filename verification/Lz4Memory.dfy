/** The copies of lz4.c: plain ones, and "wild" ones that run past their end. */
module Lz4Memory {
  import opened Bytes
  import opened Lz4Format

  // Everything but [from, to) is as it was.
  twostate predicate KeepsOutside(a: array<byte>, from: nat, to: nat)
    reads a
  {
    forall k :: 0 <= k < a.Length && !(from <= k < to) ==> a[k] == old(a[k])
  }

  // LZ4_memcpy from another buffer.
  method CopyFrom(dst: array<byte>, d: nat, src: seq<byte>, s: nat, n: nat)
    requires d + n <= dst.Length && s + n <= |src|
    modifies dst
    ensures KeepsOutside(dst, d, d + n)
    ensures forall k :: d <= k < d + n ==> dst[k] == src[s + (k - d)]
  {
    forall k | 0 <= k < n {
      dst[d + k] := src[s + k];
    }
  }

  // LZ4_wildCopy8 from another buffer: it moves whole words and so passes the end by at most one.
  method WildCopy8From(dst: array<byte>, dstPtr: nat, src: seq<byte>, srcPtr: nat, n: nat)
    requires dstPtr + n + 8 <= dst.Length && srcPtr + n + 8 <= |src|
    modifies dst
    ensures KeepsOutside(dst, dstPtr, dstPtr + n + 8)
    ensures forall k :: dstPtr <= k < dstPtr + n ==> dst[k] == src[srcPtr + (k - dstPtr)]
  {
    var d, s, e := dstPtr, srcPtr, dstPtr + n;
    CopyFrom(dst, d, src, s, 8);
    d, s := d + 8, s + 8;
    while d < e
      invariant dstPtr + 8 <= d <= e + 8 && s == srcPtr + (d - dstPtr)
      invariant KeepsOutside(dst, dstPtr, d)
      invariant forall k :: dstPtr <= k < d ==> dst[k] == src[srcPtr + (k - dstPtr)]
    {
      CopyFrom(dst, d, src, s, 8);
      d, s := d + 8, s + 8;
    }
  }

  // LZ4_wildCopy32 from another buffer: it moves pairs of 16 and so passes the end by at most one pair.
  method WildCopy32From(dst: array<byte>, dstPtr: nat, src: seq<byte>, srcPtr: nat, n: nat)
    requires dstPtr + n + 32 <= dst.Length && srcPtr + n + 32 <= |src|
    modifies dst
    ensures KeepsOutside(dst, dstPtr, dstPtr + n + 32)
    ensures forall k :: dstPtr <= k < dstPtr + n ==> dst[k] == src[srcPtr + (k - dstPtr)]
  {
    var d, s, e := dstPtr, srcPtr, dstPtr + n;
    CopyFrom(dst, d, src, s, 16);
    CopyFrom(dst, d + 16, src, s + 16, 16);
    d, s := d + 32, s + 32;
    while d < e
      invariant dstPtr + 32 <= d <= e + 32 && s == srcPtr + (d - dstPtr)
      invariant KeepsOutside(dst, dstPtr, d)
      invariant forall k :: dstPtr <= k < d ==> dst[k] == src[srcPtr + (k - dstPtr)]
    {
      CopyFrom(dst, d, src, s, 16);
      CopyFrom(dst, d + 16, src, s + 16, 16);
      d, s := d + 32, s + 32;
    }
  }

  // ----- Copies within one buffer, from dist bytes back -----

  ghost predicate CopiedBack(a: array<byte>, from: nat, to: nat, dist: nat)
    requires dist <= from && to <= a.Length
    reads a
  {
    forall k :: from <= k < to ==> a[k] == a[k - dist]
  }

  // LZ4_memcpy; its source and target do not overlap.
  method CopyBack(dst: array<byte>, d: nat, dist: nat, n: nat)
    requires n <= dist <= d && d + n <= dst.Length
    modifies dst
    ensures KeepsOutside(dst, d, d + n) && CopiedBack(dst, d, d + n, dist)
  {
    forall k | d <= k < d + n {
      dst[k] := dst[k - dist];
    }
  }

  // LZ4_wildCopy8.
  method WildCopy8Back(dst: array<byte>, start: nat, dist: nat, e: nat)
    requires 8 <= dist <= start && start + 8 <= dst.Length && e + 7 <= dst.Length
    modifies dst
    ensures KeepsOutside(dst, start, dst.Length)
    ensures CopiedBack(dst, start, start + 8, dist) && CopiedBack(dst, start, e, dist)
  {
    var d := start;
    CopyBack(dst, d, dist, 8);
    d := d + 8;
    while d < e
      invariant start + 8 <= d <= dst.Length && KeepsOutside(dst, start, d) && CopiedBack(dst, start, d, dist)
    {
      CopyBack(dst, d, dist, 8);
      d := d + 8;
    }
  }

  // LZ4_wildCopy32, fit for offsets from 16 up.
  method WildCopy32Back(dst: array<byte>, start: nat, dist: nat, e: nat)
    requires 16 <= dist <= start && start + 32 <= dst.Length && e + 31 <= dst.Length
    modifies dst
    ensures KeepsOutside(dst, start, dst.Length) && CopiedBack(dst, start, e, dist)
  {
    var d := start;
    CopyBack(dst, d, dist, 16);
    CopyBack(dst, d + 16, dist, 16);
    d := d + 32;
    while d < e
      invariant start + 32 <= d <= dst.Length && KeepsOutside(dst, start, d) && CopiedBack(dst, start, d, dist)
    {
      CopyBack(dst, d, dist, 16);
      CopyBack(dst, d + 16, dist, 16);
      d := d + 32;
    }
  }
}
