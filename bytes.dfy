/**
 * Shared vocabulary of the model: octets, optional values and results.
 */
module Bytes {
  /** One octet, as read from a log file or a value blob. */
  type byte = b: int | 0 <= b < 256

  /** A value that may be missing (Python's `None`). */
  datatype Option<+T> = None | Some(value: T)

  /** The outcome of an operation that may raise. */
  datatype Result<+T, +E> = Success(value: T) | Failure(error: E)

  function Min(a: int, b: int): int
  {
    if a <= b then a else b
  }
}
