/** Option and Result, as the Rust program uses them. */
module Wrappers {
  datatype Option<+T> = None | Some(value: T)

  datatype Result<+T, +E> = Ok(value: T) | Err(error: E)
}

/** Bytes as the integers 0..255. */
module Bytes {
  type byte = x: int | 0 <= x < 256
}
