/** Small shared types: optional values, results with an error, and bytes. */
module Prelude {

  /** An optional value; `None` stands for JavaScript's `null` or `undefined`. */
  datatype Option<+T> = None | Some(value: T)

  /** The outcome of an operation that can reject with an error. */
  datatype Result<+T, +E> = Ok(value: T) | Err(error: E)

  /** One element of a `Uint8Array`. */
  newtype Byte = b: int | 0 <= b < 256
}
