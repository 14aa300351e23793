/** Optional values and success/failure results, used for omitted payload
    fields and for the validation error a write can raise. */
module Wrappers {

  /** A value that may be absent, such as a payload field the client left out. */
  datatype Option<+T> = None | Some(value: T)

  /** The outcome of a write: the saved record, or the error the request fails with. */
  datatype Result<+R, +E> = Success(value: R) | Failure(error: E)
}
