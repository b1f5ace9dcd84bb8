/** Machine integer widths and the optional value used throughout the model. */
module Base {

  /** An unsigned byte (Rust `u8`). */
  newtype u8 = x: int | 0 <= x < 0x100

  /** Rust `u16`. */
  newtype u16 = x: int | 0 <= x < 0x1_0000

  /** Rust `u32`. */
  newtype u32 = x: int | 0 <= x < 0x1_0000_0000

  /** Rust `Option<T>`. */
  datatype Option<+T> = None | Some(value: T)
}
