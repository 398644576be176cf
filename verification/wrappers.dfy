/** Optional values and error-carrying results shared by the model. */
module Wrappers {

  /** A value that may be absent; `None` also stands for Python's `None`. */
  datatype Option<+T> = None | Some(value: T)

  /** The outcome of an operation that can raise: a value or an error. */
  datatype Result<+R, +E> = Success(value: R) | Failure(error: E)
}
