/** Small failure-carrying datatypes shared by the other modules. */
module Wrappers {

  /** A value that may be absent, as Python's `None` or a missing form field. */
  datatype Option<T> = None | Some(value: T)

  /** A value, or the error that stopped the computation producing it. */
  datatype Result<T, E> = Ok(value: T) | Err(error: E)
}
