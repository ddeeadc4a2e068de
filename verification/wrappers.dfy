/** Failure-carrying wrappers shared by every module of the model. */
module Wrappers {

  /** A value that may be absent: `undefined`/`null` in the application. */
  datatype Option<+T> = None | Some(value: T)

  /** Either a value or the error that replaced it. */
  datatype Result<+T, +E> = Ok(value: T) | Err(error: E)

  /** A user-visible notification ("toast"), by severity. */
  datatype Notice = Success(text: string) | Failure(text: string) | Info(text: string)
}
