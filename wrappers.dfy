/** Failure-carrying values used in place of the exceptions the JavaScript code throws,
    and the byte type shared by the codecs. */
module Wrappers {

  /** An octet, the element type of a Node Buffer. */
  newtype byte = x: int | 0 <= x < 256

  datatype Option<+T> = None | Some(value: T)

  datatype Result<+T, +E> = Success(value: T) | Failure(error: E)

  /** The outcome of a step that returns nothing but may throw. */
  datatype Outcome<+E> = Pass | Fail(error: E)
}
