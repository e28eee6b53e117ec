/** Outcome datatypes shared by the other modules. */
module Wrappers {

  /** A value that may be absent (the source's null). */
  datatype Option<+T> = None | Some(value: T)

  /** A value, or the error the source would signal instead of returning one. */
  datatype Result<+R, +E> = Success(value: R) | Failure(error: E)
}
