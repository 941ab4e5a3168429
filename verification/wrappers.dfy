/** Failure-carrying wrappers shared by the rest of the model. */
module Wrappers {

  /** Python's `str | None`: a value that may be absent. */
  datatype Option<+T> = None | Some(value: T)

  /** The outcome of a Python call that either returns or raises. */
  datatype Result<+T, +E> = Success(value: T) | Failure(error: E)
}
