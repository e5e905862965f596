/** Option and Result wrappers shared by the router modules. */
module Wrappers {

  /** An optional value: JavaScript's `undefined` becomes None. */
  datatype Option<+T> = None | Some(value: T)

  /** The value of an operation that may throw: Err carries what would have been thrown. */
  datatype Result<+T, +E> = Ok(value: T) | Err(error: E)
}
