/** Machine integer ranges of the C programs, over Dafny's unbounded integers. */
module Ints {

  const TWO_32: int := 0x1_0000_0000
  const TWO_64: int := 0x1_0000_0000_0000_0000

  type byte = x: int | 0 <= x < 256
  type uint32 = x: int | 0 <= x < 0x1_0000_0000
  type uint64 = x: int | 0 <= x < 0x1_0000_0000_0000_0000
  type int32 = x: int | -0x8000_0000 <= x < 0x8000_0000

  /** An integer reduced modulo 2^32: the C conversion to `uint32_t`. */
  function U32(x: int): (r: uint32)
    ensures (r - x) % TWO_32 == 0
  {
    x % TWO_32
  }

  /** The two's-complement reading of a 32-bit pattern: the C conversion to `int`. */
  function I32(x: uint32): (r: int32)
    ensures U32(r) == x
  {
    if x < 0x8000_0000 then x else x - TWO_32
  }

  /** A value already in range is its own 32-bit reduction. */
  lemma U32InRange(x: int)
    requires 0 <= x < TWO_32
    ensures U32(x) == x
  {
  }
}
