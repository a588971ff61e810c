/** Optional values and error results. `None` stands for a JavaScript field that is
    `undefined` or `null`; `Failure` for an exception that aborts one issue. */
module Wrappers {

  datatype Option<+T> = None | Some(value: T)

  datatype Result<+T, +E> = Success(value: T) | Failure(error: E)
}
