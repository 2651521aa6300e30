/** Failure-carrying results shared by the modules of this model. */
module Wrappers {

  /** The value the source leaves absent (Java null, Python None, an unreached float("inf")). */
  datatype Option<+T> = None | Some(value: T)

  /** The outcome of an operation the source can abort with an exception. */
  datatype Result<+T, +E> = Ok(value: T) | Err(error: E)
}
