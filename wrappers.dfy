/** Option and Result wrappers shared by the modules of this model. */
module Wrappers {

  datatype Option<T> = None | Some(value: T)

  /** The outcome of an operation that may raise: a value or the error raised. */
  datatype Result<T, E> = Ok(value: T) | Err(error: E)
}
