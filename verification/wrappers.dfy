/** Optional values and fault-or-value results, standing in for Java's nullable
    references and for the exceptions the booking service throws. */
module Wrappers {

  /** A nullable Java reference: `None` is `null`. */
  datatype Option<+T> = None | Some(value: T)

  /** Either a normal return value or the fault raised instead of it. */
  datatype Result<+R, +E> = Success(value: R) | Failure(error: E)
}
