/** Option and Result values used for the error paths of the per-frame step. */
module Outcomes {

  datatype Option<+T> = None | Some(value: T)

  datatype Result<+T, +E> = Ok(value: T) | Err(error: E)

  /** The one exception the frame body can raise: a dictionary lookup of a missing key. */
  datatype Fault = KeyError(key: string)
}
