/** Option and Result, used for dictionary lookups that may miss and for
    operations whose source raises an exception. */
module Wrappers {

  datatype Option<+T> = None | Some(value: T)

  /** `Failure(error)` stands for a raised exception carrying the message `str(e)`. */
  datatype Result<+R> = Success(value: R) | Failure(error: string)
}
