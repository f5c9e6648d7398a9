/** Result and Option, for error paths that the source signals by raising or
    by returning early. */
module Wrappers {
  datatype Option<+T> = None | Some(value: T)

  datatype Result<+T, +E> = Success(value: T) | Failure(error: E)
}
