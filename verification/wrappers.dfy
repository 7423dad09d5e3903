/** Optional and failing results: Java's `null` returns and thrown exceptions. */
module Wrappers {

  /** A value or Java's `null`. */
  datatype Option<T> = None | Some(value: T)

  /** A normal return, or an exception the code lets escape. */
  datatype Result<T, E> = Success(value: T) | Failure(error: E)
}
