/** Success-or-failure values: the model's stand-in for a Python exception. */
module Outcomes {

  /** Either the value a computation produced or the error that aborted it. */
  datatype Result<+T, +E> = Ok(value: T) | Err(error: E)
}
