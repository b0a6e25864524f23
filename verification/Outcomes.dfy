/** The two ways a modelled operation can fail: no value, or a value-carrying error. */
module Outcomes {
  datatype Option<+T> = None | Some(value: T)

  datatype Result<+T, +E> = Ok(value: T) | Err(error: E)
}
