// Machine integers as subranges of int.
module Bytes {
  type Byte = n: int | 0 <= n < 0x100

  type U32 = n: int | 0 <= n < 0x1_0000_0000

  type U64 = n: int | 0 <= n < 0x1_0000_0000_0000_0000

  type I64 = n: int | -0x8000_0000_0000_0000 <= n < 0x8000_0000_0000_0000

  const RANGE_64: int := 0x1_0000_0000_0000_0000
}
