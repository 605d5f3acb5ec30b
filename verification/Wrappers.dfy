// The two failure datatypes every other module uses in place of the source's
// `Option` and `Result`.
module Wrappers {

  datatype Option<+T> = None | Some(value: T)

  datatype Result<+T, +E> = Ok(value: T) | Err(error: E)
}
