/** Fixed-width integer types of the Rust crate, as subsets of Dafny's unbounded
    integers, and the Option type its functions return. */
module Types {

  const U8_LIMIT: int := 0x100
  const U32_LIMIT: int := 0x1_0000_0000
  const U64_LIMIT: int := 0x1_0000_0000_0000_0000
  const I32_MIN: int := -0x8000_0000
  const I32_LIMIT: int := 0x8000_0000

  type u8 = x: int | 0 <= x < U8_LIMIT
  type u64 = x: int | 0 <= x < U64_LIMIT
  /** The crate only builds for 64-bit targets, so `usize` is 64 bits wide. */
  type usize = x: int | 0 <= x < U64_LIMIT
  type i32 = x: int | I32_MIN <= x < I32_LIMIT

  datatype Option<+T> = None | Some(value: T)
}
