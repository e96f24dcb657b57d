/** Optional values and fallible results, the two shapes the program's
    `Option` and `anyhow::Result` values take in this model. */
module Wrappers {

  datatype Option<+T> = None | Some(value: T)

  /** Rust's `u32`. */
  type U32 = x: int | 0 <= x < 0x1_0000_0000

  datatype Result<+R, +E> = Success(value: R) | Failure(error: E)
}
