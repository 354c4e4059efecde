/** Option and Result values for the partial operations of the model. */
module Wrappers {

  datatype Option<+T> = None | Some(value: T)

  /** The outcome of an operation that the source can abort with an exception. */
  datatype Result<+R, +E> = Ok(value: R) | Err(error: E)
}
