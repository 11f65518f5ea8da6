/** Failure-carrying values used in place of Python's None and exceptions. */
module Wrappers {

  /** Python's `None` or a present value. */
  datatype Option<+T> = None | Some(value: T)

  /** A computation that returned a value or raised an exception whose `str()` is `error`. */
  datatype Result<+T> = Ok(value: T) | Err(error: string)

  /** A side-effecting step that either completed or raised an exception. */
  datatype Outcome = Pass | Fail(error: string)
}
