/** A JavaScript call either returns or throws; `E` says which of its throws was taken. */
module Wrappers {
  datatype Option<+T> = None | Some(value: T)
  datatype Result<+T, +E> = Ok(value: T) | Err(error: E)
}
