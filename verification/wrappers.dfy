/** The two wrappers every operation of the model returns: `Option` for
    a lookup that may find nothing, `Result` for an operation that either
    produces a value or fails with an error the caller maps to an HTTP
    status. */
module Wrappers {

  datatype Option<+T> = None | Some(value: T)

  datatype Result<+R, +E> = Success(value: R) | Failure(error: E)
}
