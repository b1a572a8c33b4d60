/** Option and Result, used for values a JavaScript function may not produce
    and for the errors it throws or rejects with. */
module Wrappers {

  datatype Option<+T> = None | Some(value: T)

  datatype Result<+T, +E> = Success(value: T) | Failure(error: E)
}
