/** Option and Result: the two ways the modelled code reports "nothing" or "failed". */
module Wrappers {

  datatype Option<+T> = None | Some(value: T)

  datatype Result<+T, +E> = Ok(value: T) | Err(error: E)
}
