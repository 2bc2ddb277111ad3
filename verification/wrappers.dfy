/** Plain sum types used throughout the model: `Option` stands for Python's
    `None`-or-value, `Result` for a returned value or a raised exception. */
module Wrappers {

  /** A value or Python's `None`. */
  datatype Option<+T> = None | Some(value: T)

  /** A returned value, or the exception the call raises instead. */
  datatype Result<+T, +E> = Success(value: T) | Failure(error: E)
}
