/** The two outcome types the model uses in place of `undefined` and of thrown exceptions. */
module Wrappers {

  /** A value that may be absent: JavaScript's `undefined` (or a regular expression that did not match). */
  datatype Option<+T> = None | Some(value: T)

  /** A computation that either produced a value or was abandoned by an exception. */
  datatype Result<+T, +E> = Success(value: T) | Failure(error: E)
}
