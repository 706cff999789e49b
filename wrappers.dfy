/** Optional values and outcomes, used where the source returns `null` or throws. */
module Wrappers {

  datatype Option<+T> = None | Some(value: T)

  /** The value built, or the message of the exception thrown instead. */
  datatype Result<+T> = Success(value: T) | Failure(error: string)
}
