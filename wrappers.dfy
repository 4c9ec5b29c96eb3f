/** Failure-carrying values shared by the other modules. */
module Wrappers {

  /** A value that may be absent, such as a key missing from a JSON object. */
  datatype Option<+T> = None | Some(value: T)

  /** The outcome of an operation that can fail with an error description. */
  datatype Result<+R, +E> = Success(value: R) | Failure(error: E)
}
