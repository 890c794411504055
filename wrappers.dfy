/** Python's optional values and raised-or-returned results. */
module Wrappers {

  /** `None` or a value, as Python's `T | None`. */
  datatype Option<+T> = None | Some(value: T)

  /** A returned value or a raised exception. */
  datatype Result<+T, +E> = Success(value: T) | Failure(error: E)
}
