/** Machine integers; an operation that leaves the range does not verify. */
module Ints {
  newtype int8 = x: int | -0x80 <= x < 0x80
  newtype int32 = x: int | -0x8000_0000 <= x < 0x8000_0000
  newtype int64 = x: int | -0x8000_0000_0000_0000 <= x < 0x8000_0000_0000_0000
}
