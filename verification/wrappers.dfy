/** Option and Result, as the model uses them: an absent value and a step that can fail. */
module Wrappers {

  /** A value that may be absent: Kotlin's nullable `T?`. */
  datatype Option<+T> = None | Some(value: T)

  /** The outcome of a step that can fail with an error message. */
  datatype Result<+R, +E> = Success(value: R) | Failure(error: E)
}
