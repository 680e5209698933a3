/** Rust primitives the filter engine is written in terms of. */
module Prelude {

  /** Rust's `u32`. */
  newtype u32 = x: int | 0 <= x < 0x1_0000_0000

  /** Rust's `Option`. */
  datatype Option<T> = None | Some(value: T)

  /** Rust's `Result`. */
  datatype Result<T, E> = Ok(value: T) | Err(error: E)
}
