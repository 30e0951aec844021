/** Option and Result values: `undefined`/`null`/`NaN` and the rejected promise of the source. */
module Wrappers {

  datatype Option<+T> = None | Some(value: T)

  datatype Result<+T, +E> = Success(value: T) | Failure(error: E)
}
