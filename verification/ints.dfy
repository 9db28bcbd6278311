/** Rust's unsigned integer widths, as ranges of mathematical integers. */
module Ints {
  const TWO_TO_THE_32: nat := 0x1_0000_0000
  const TWO_TO_THE_64: nat := 0x1_0000_0000_0000_0000

  type U8 = x: int | 0 <= x < 256
  type U32 = x: int | 0 <= x < TWO_TO_THE_32
  type U64 = x: int | 0 <= x < TWO_TO_THE_64
}
