/** Option and Result datatypes shared by every module of the model. */
module Wrappers {

  /** A value that may be absent; SQL NULL and an absent request field are `None`. */
  datatype Option<+T> = None | Some(value: T)

  /** The outcome of a request handler: a value, or an HTTP error response. */
  datatype Result<+T, +E> = Ok(value: T) | Err(error: E)
}
