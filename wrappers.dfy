/** Option and Result, for the lookups and errors of the model. */
module Wrappers {

  datatype Option<+T> = None | Some(value: T)

  /** `Ok` carries the value a call returns; `Err` the exception it raises. */
  datatype Result<+T, +E> = Ok(value: T) | Err(error: E)

  /** Outcome of a call that returns nothing on success. */
  datatype Outcome<+E> = Pass | Fail(error: E)
}
