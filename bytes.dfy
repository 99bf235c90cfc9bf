/** Byte-level primitives shared by the row codec and the node codec: the
    unsigned integer widths the C code uses, the little-endian image of a
    `uint32_t` stored through a `uint32_t*` (x86 byte order), and `memcpy`
    into a buffer. */
module Bytes {

  type byte = b: int | 0 <= b < 256

  type u32 = x: int | 0 <= x < 0x1_0000_0000

  /** The four bytes a `uint32_t` store leaves in memory, least significant first. */
  function EncodeU32(v: u32): (bs: seq<byte>)
    ensures |bs| == 4
    ensures DecodeU32(bs) == v
  {
    var q1 := v / 256;
    var q2 := q1 / 256;
    [v % 256, q1 % 256, q2 % 256, q2 / 256]
  }

  /** The `uint32_t` a load through a `uint32_t*` reads from four bytes. */
  function DecodeU32(bs: seq<byte>): (v: u32)
    requires |bs| == 4
  {
    bs[0] as int + 256 * (bs[1] as int + 256 * (bs[2] as int + 256 * bs[3] as int))
  }

  /** Every four-byte pattern is the image of exactly one `uint32_t`. */
  lemma EncodeDecode(bs: seq<byte>)
    requires |bs| == 4
    ensures EncodeU32(DecodeU32(bs)) == bs
  {
    var v := DecodeU32(bs);
    var hi := bs[1] as int + 256 * (bs[2] as int + 256 * bs[3] as int);
    assert v == bs[0] as int + 256 * hi;
    assert v % 256 == bs[0] && v / 256 == hi;
    var mid := bs[2] as int + 256 * bs[3] as int;
    assert hi == bs[1] as int + 256 * mid;
    assert hi % 256 == bs[1] && hi / 256 == mid;
    assert mid % 256 == bs[2] && mid / 256 == bs[3];
  }

  /** Loads read back what stores wrote, so two buffers decode equal exactly when
      they hold the same four bytes. */
  lemma DecodeInjective(a: seq<byte>, b: seq<byte>)
    requires |a| == 4 && |b| == 4
    ensures DecodeU32(a) == DecodeU32(b) <==> a == b
  {
    if DecodeU32(a) == DecodeU32(b) {
      EncodeDecode(a);
      EncodeDecode(b);
    }
  }

  /** `memcpy(dst + dOff, src + sOff, len)`. The two ranges may lie in one buffer;
      they must then be disjoint or identical (an identical copy is a no-op). */
  method Memcpy(dst: array<byte>, dOff: nat, src: array<byte>, sOff: nat, len: nat)
    requires dOff + len <= dst.Length && sOff + len <= src.Length
    requires dst == src ==> dOff + len <= sOff || sOff + len <= dOff || dOff == sOff
    modifies dst
    ensures dst[dOff..dOff + len] == old(src[sOff..sOff + len])
    ensures forall k :: 0 <= k < dst.Length && !(dOff <= k < dOff + len) ==> dst[k] == old(dst[k])
  {
    var i := 0;
    while i < len
      invariant 0 <= i <= len
      invariant forall k :: dOff <= k < dOff + i ==> dst[k] == old(src[k - dOff + sOff])
      invariant forall k :: 0 <= k < dst.Length && !(dOff <= k < dOff + i) ==> dst[k] == old(dst[k])
      invariant src != dst ==> src[..] == old(src[..])
    {
      assert src[sOff + i] == old(src[sOff + i]);
      dst[dOff + i] := src[sOff + i];
      i := i + 1;
    }
  }

  /** `memcpy(dst + off, &value, |data|)` for a value held outside any page
      (a row field, or a `uint32_t` written through a pointer). */
  method Store(dst: array<byte>, off: nat, data: seq<byte>)
    requires off + |data| <= dst.Length
    modifies dst
    ensures dst[off..off + |data|] == data
    ensures forall k :: 0 <= k < dst.Length && !(off <= k < off + |data|) ==> dst[k] == old(dst[k])
  {
    var i := 0;
    while i < |data|
      invariant 0 <= i <= |data|
      invariant forall k :: off <= k < off + i ==> dst[k] == data[k - off]
      invariant forall k :: 0 <= k < dst.Length && !(off <= k < off + i) ==> dst[k] == old(dst[k])
    {
      dst[off + i] := data[i];
      i := i + 1;
    }
  }

  /** `n` zero bytes. */
  function Zeros(n: nat): (z: seq<byte>)
    ensures |z| == n && forall k :: 0 <= k < n ==> z[k] == 0
  {
    seq(n, _ => 0)
  }
}
