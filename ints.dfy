/** Fixed-width unsigned integers of the Rust source, as bounded subsets of `int`. */
module Ints {

  const U32_LIMIT: nat := 0x1_0000_0000
  const U64_LIMIT: nat := 0x1_0000_0000_0000_0000
  const U128_LIMIT: nat := 0x1_0000_0000_0000_0000_0000_0000_0000_0000

  type uint32 = x: int | 0 <= x < U32_LIMIT
  type uint64 = x: int | 0 <= x < U64_LIMIT
  type uint128 = x: int | 0 <= x < U128_LIMIT
}
