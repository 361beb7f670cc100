/**
  Octets and 32-bit words: uint8_t, uint32_t and the conversion to int32_t.
 */
module Words {

  const U32: int := 0x1_0000_0000
  const I32: int := 0x8000_0000

  type byte = b: int | 0 <= b < 256
  type u32 = w: int | 0 <= w < 0x1_0000_0000

  /** The (int32_t) conversion of a uint32_t. */
  function Signed(x: nat): int {
    if x < I32 then x else x - U32
  }

  lemma WrapIs(x: int, q: int, r: int)
    requires x == q * U32 + r && 0 <= r < U32
    ensures x % U32 == r
  {}
}
