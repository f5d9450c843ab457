/** The fixed-width unsigned integer types of the source. */
module Ints {

  newtype u32 = x: int | 0 <= x < 0x1_0000_0000

  newtype byte = x: int | 0 <= x < 256
}
