/** Go's `error` results: an absent error (`nil`) or a present one, and a
    value-or-error pair. */
module Wrappers {

  datatype Option<+T> = None | Some(value: T)

  datatype Result<+T, +E> = Ok(value: T) | Err(error: E)
}
