/** Failure-carrying datatypes shared by the other modules. */
module Wrappers {

  /** A value that may be absent, as d3's `extent` returns undefined bounds for no data. */
  datatype Option<+T> = None | Some(value: T)

  /** The outcome of an operation that can throw in the component. */
  datatype Result<+T, +E> = Ok(value: T) | Err(error: E)
}
