/** Optional values and results with an error, used for Java's nullable
    references and for operations that throw. */
module Wrappers {

  /** A nullable reference: `None` plays the part of Java's `null`. */
  datatype Option<+T> = None | Some(value: T)

  /** The value of an operation that either returns or throws `error`. */
  datatype Result<+T, +E> = Success(value: T) | Failure(error: E)
}
