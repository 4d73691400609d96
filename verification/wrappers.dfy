/** The optional value that stands for a nullable column, and the outcome of a service call. */
module Wrappers {

  datatype Option<+T> = None | Some(value: T)

  /** A service either commits a new value or raises, in which case its transaction is rolled back. */
  datatype Result<+T> = Success(value: T) | Refused
}
