/** Option and Result, the two failure-aware datatypes the model is written with. */
module Wrappers {

  /** A value that may be absent; `None` stands for JavaScript's `null`. */
  datatype Option<+T> = None | Some(value: T)

  /** The outcome of a validation: the accepted value or the reason for refusing it. */
  datatype Result<+R, +E> = Success(value: R) | Failure(error: E)
}
