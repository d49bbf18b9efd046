/** Fixed-width integers as they appear in a TTBIN file, and little-endian
    reading and writing of them. The watch stores every multi-byte field
    least-significant byte first; the C decoder relies on `memcpy` into a
    packed struct on a little-endian host, which amounts to the same thing. */
module Bytes {

  type uint8 = x: int | 0 <= x < 0x100
  type uint16 = x: int | 0 <= x < 0x1_0000
  type uint32 = x: int | 0 <= x < 0x1_0000_0000
  type int32 = x: int | -0x8000_0000 <= x < 0x8000_0000

  /** 256 to the power `w`: one more than the largest value `w` bytes hold. */
  function Pow256(w: nat): (r: nat)
    ensures r >= 1
  {
    if w == 0 then 1 else 256 * Pow256(w - 1)
  }

  /** The unsigned value of the bytes `s`, least significant first. */
  function LittleEndian(s: seq<uint8>): (v: nat)
    ensures v < Pow256(|s|)
  {
    if s == [] then 0 else s[0] + 256 * LittleEndian(s[1..])
  }

  /** The `w` bytes that store `x`, least significant first (higher bits of `x` are dropped). */
  function ToLittleEndian(x: nat, w: nat): (s: seq<uint8>)
    ensures |s| == w
  {
    if w == 0 then [] else [x % 256] + ToLittleEndian(x / 256, w - 1)
  }

  /** Reading back what was written gives the value. */
  lemma {:induction false} LittleEndianRoundTrip(x: nat, w: nat)
    requires x < Pow256(w)
    ensures LittleEndian(ToLittleEndian(x, w)) == x
  {
    if w > 0 {
      var s := ToLittleEndian(x, w);
      assert s[1..] == ToLittleEndian(x / 256, w - 1);
      LittleEndianRoundTrip(x / 256, w - 1);
    }
  }

  /** The two's-complement reading of an unsigned 32-bit pattern (C's `int32_t`). */
  function Signed32(u: uint32): (v: int32)
    ensures v % 0x1_0000_0000 == u
    ensures (v >= 0) == (u < 0x8000_0000)
  {
    if u < 0x8000_0000 then u else u - 0x1_0000_0000
  }

  /** The unsigned 32-bit pattern of a signed value. */
  function Unsigned32(v: int32): (u: uint32)
    ensures u % 0x1_0000_0000 == v % 0x1_0000_0000
  {
    if v >= 0 then v else v + 0x1_0000_0000
  }

  lemma SignedUnsigned(v: int32)
    ensures Signed32(Unsigned32(v)) == v
  {
  }
}
