/** Failure-compatible result types shared by the modules of this model. */
module Wrappers {

  /** A value that may be missing, standing for Python's `None`. */
  datatype Option<+T> = None | Some(value: T)

  /** The outcome of an operation that may raise, standing for a Python exception path. */
  datatype Result<+T, +E> = Ok(value: T) | Err(error: E)
}
