/** Failure-carrying results used where the library throws or returns an absent value. */
module Wrappers {

  /** A value that may be absent (`null` / `undefined` in the library). */
  datatype Option<T> = None | Some(value: T)

  /** The outcome of an operation that returns a value or throws. */
  datatype Result<T, E> = Success(value: T) | Failure(error: E)

  /** The outcome of an operation that returns nothing or throws. */
  datatype Outcome<E> = Pass | Fail(error: E)
}
