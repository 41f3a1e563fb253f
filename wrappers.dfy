/** Absent-or-present values and error results shared by the other modules. */
module Wrappers {

  /** A value that may be absent: JavaScript's `undefined` is `None`. */
  datatype Option<+T> = None | Some(value: T)

  /** The outcome of an operation that can throw: `Failure` stands for the thrown error. */
  datatype Result<+T, +E> = Success(value: T) | Failure(error: E)
}
