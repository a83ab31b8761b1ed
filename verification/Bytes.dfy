/** Bytes and the little-endian integers read out of them. */
module Bytes {
  type Byte = b: int | 0 <= b < 256

  const U32_MAX: nat := 0xFFFF_FFFF
  const U64_MAX: nat := 0xFFFF_FFFF_FFFF_FFFF

  /** The little-endian `u32` at `off`. */
  function U32(b: seq<Byte>, off: nat): (n: nat)
    requires off + 4 <= |b|
    ensures n <= U32_MAX
  {
    var b0: int, b1: int, b2: int, b3: int := b[off], b[off + 1], b[off + 2], b[off + 3];
    b0 + 256 * b1 + 65536 * b2 + 16777216 * b3
  }

  /** `saturating_add` on `u32`. */
  function SaturatingAdd(x: nat, y: nat): nat {
    Saturate(x + y)
  }

  function Saturate(n: nat): nat {
    if n <= U32_MAX then n else U32_MAX
  }

  /** Saturating sums can be regrouped. */
  lemma {:induction false} SaturatingAssoc(x: nat, y: nat, z: nat)
    ensures SaturatingAdd(x, SaturatingAdd(y, z)) == SaturatingAdd(SaturatingAdd(x, y), z) == Saturate(x + y + z)
  {
  }
}
