/** memcpy and the stepping copies of lz4.c, on indices into a byte array. */
module Memory {
  import opened Bytes

  /** memcpy from a read-only source. */
  method CopyFrom(dst: array<byte>, d: nat, src: seq<byte>, s: nat, n: nat)
    requires d + n <= dst.Length && s + n <= |src|
    modifies dst
    ensures forall k :: 0 <= k < dst.Length ==>
      dst[k] == if d <= k < d + n then src[s + k - d] else old(dst[k])
  {
    forall k | 0 <= k < n {
      dst[d + k] := src[s + k];
    }
  }

  /** memcpy inside one buffer: like C's, it demands that the two ranges do not overlap. */
  method CopyWithin(dst: array<byte>, d: nat, s: nat, n: nat)
    requires s + n <= d && d + n <= dst.Length
    modifies dst
    ensures forall k :: 0 <= k < dst.Length ==>
      dst[k] == if d <= k < d + n then old(dst[s + k - d]) else old(dst[k])
  {
    forall k | 0 <= k < n {
      dst[d + k] := dst[s + k];
    }
  }

  /** LZ4_wildCopy8 from a read-only source: copies whole 8-byte chunks up to or past `e`. */
  method WildCopy8From(dst: array<byte>, d0: nat, src: seq<byte>, s0: nat, e: nat)
    requires d0 <= e
    requires Max(d0 + 8, e + 7) <= dst.Length && s0 + Max(8, e - d0 + 7) <= |src|
    modifies dst
    ensures forall k :: 0 <= k < d0 ==> dst[k] == old(dst[k])
    ensures forall k :: d0 <= k < e ==> dst[k] == src[s0 + k - d0]
  {
    var d, s := d0, s0;
    while true
      invariant d0 <= d < Max(e, d0 + 1) && s == s0 + d - d0
      invariant forall k :: 0 <= k < d0 ==> dst[k] == old(dst[k])
      invariant forall k :: d0 <= k < d ==> dst[k] == src[s0 + k - d0]
      decreases e - d
    {
      CopyFrom(dst, d, src, s, 8);
      d, s := d + 8, s + 8;
      if d >= e { break; }
    }
  }

  /** How many bytes a copy in strides of `step` moves to cover `n`: at least one stride. */
  function Strides(n: int, step: nat): (w: nat)
    requires step == 8 || step == 32
    ensures n <= w && step <= w && w % step == 0 && (w < n + step || w == step)
  {
    if n <= step then step else (n + step - 1) / step * step
  }

  /** LZ4_wildCopy8 inside one buffer, at a distance of at least 8. */
  method WildCopy8Within(dst: array<byte>, d0: nat, s0: nat, e: nat)
    requires s0 + 8 <= d0 && d0 + Strides(e - d0, 8) <= dst.Length
    modifies dst
    ensures forall k :: 0 <= k < d0 || d0 + Strides(e - d0, 8) <= k < dst.Length ==> dst[k] == old(dst[k])
    ensures forall k :: d0 <= k < d0 + Strides(e - d0, 8) ==> dst[k] == dst[k - (d0 - s0)]
  {
    var d, s := d0, s0;
    while true
      invariant d0 <= d < Max(e, d0 + 1) && (d - d0) % 8 == 0 && s == s0 + d - d0
      invariant forall k :: 0 <= k < d0 || d <= k < dst.Length ==> dst[k] == old(dst[k])
      invariant forall k :: d0 <= k < d ==> dst[k] == dst[k - (d0 - s0)]
      decreases e - d
    {
      CopyWithin(dst, d, s, 8);
      d, s := d + 8, s + 8;
      if d >= e { break; }
    }
  }

  /** LZ4_wildCopy32 from a read-only source, 16 bytes twice at a time. */
  method WildCopy32From(dst: array<byte>, d0: nat, src: seq<byte>, s0: nat, e: nat)
    requires d0 + Strides(e - d0, 32) <= dst.Length && s0 + Strides(e - d0, 32) <= |src|
    modifies dst
    ensures forall k :: 0 <= k < d0 || d0 + Strides(e - d0, 32) <= k < dst.Length ==> dst[k] == old(dst[k])
    ensures forall k :: d0 <= k < d0 + Strides(e - d0, 32) ==> dst[k] == src[s0 + k - d0]
  {
    var d, s := d0, s0;
    while true
      invariant d0 <= d < Max(e, d0 + 1) && (d - d0) % 32 == 0 && s == s0 + d - d0
      invariant forall k :: 0 <= k < d0 || d <= k < dst.Length ==> dst[k] == old(dst[k])
      invariant forall k :: d0 <= k < d ==> dst[k] == src[s0 + k - d0]
      decreases e - d
    {
      CopyFrom(dst, d, src, s, 16);
      CopyFrom(dst, d + 16, src, s + 16, 16);
      d, s := d + 32, s + 32;
      if d >= e { break; }
    }
  }

  /** LZ4_wildCopy32 inside one buffer, at a distance of at least 16. */
  method WildCopy32Within(dst: array<byte>, d0: nat, s0: nat, e: nat)
    requires s0 + 16 <= d0 && d0 + Strides(e - d0, 32) <= dst.Length
    modifies dst
    ensures forall k :: 0 <= k < d0 || d0 + Strides(e - d0, 32) <= k < dst.Length ==> dst[k] == old(dst[k])
    ensures forall k :: d0 <= k < d0 + Strides(e - d0, 32) ==> dst[k] == dst[k - (d0 - s0)]
  {
    var d, s := d0, s0;
    while true
      invariant d0 <= d < Max(e, d0 + 1) && (d - d0) % 32 == 0 && s == s0 + d - d0
      invariant forall k :: 0 <= k < d0 || d <= k < dst.Length ==> dst[k] == old(dst[k])
      invariant forall k :: d0 <= k < d ==> dst[k] == dst[k - (d0 - s0)]
      decreases e - d
    {
      CopyWithin(dst, d, s, 16);
      CopyWithin(dst, d + 16, s + 16, 16);
      d, s := d + 32, s + 32;
      if d >= e { break; }
    }
  }
}
