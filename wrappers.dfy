/** Option, Result and Outcome: absent payloads, and the store's errors as values. */
module Wrappers {

  datatype Option<+T> = None | Some(value: T)

  datatype Result<+T, +R> = Success(value: T) | Failure(error: R)

  datatype Outcome<+R> = Pass | Fail(error: R)
}
