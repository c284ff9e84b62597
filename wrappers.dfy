/** Small shared vocabulary: an optional value and the fixed-width integer
    types the program's values travel in. */
module Wrappers {
  /** An optional value, as Rust's `Option`. */
  datatype Option<+T> = None | Some(value: T)

  /** Rust `u8`: one colour channel of an LED. */
  newtype u8 = x: int | 0 <= x < 0x100

  /** Rust `u32`: controller ids and presentation indices. */
  newtype u32 = x: int | 0 <= x < 0x1_0000_0000

  /** Rust `i64`: the integers the configuration crate hands out. */
  newtype i64 = x: int | -0x8000_0000_0000_0000 <= x < 0x8000_0000_0000_0000
}
