/** Failure-carrying result types. The Go source signals every failure by
    panicking; the model returns these values instead. */
module Wrappers {

  datatype Option<+T> = None | Some(value: T)

  datatype Result<+T, +E> = Success(value: T) | Failure(error: E)
}
