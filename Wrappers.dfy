/** Option and Result, used in place of Python's None and raised exceptions. */
module Wrappers {

  datatype Option<+T> = None | Some(value: T)

  /** Success carries a value; Failure carries the message `str(e)` of the exception. */
  datatype Result<+T> = Success(value: T) | Failure(error: string)
}
