/** Failure-compatible wrappers used by the ledger: an optional value (a Java
    `Optional` or a nullable argument) and a result that is either a value or
    one of the service's exceptions. */
module Wrappers {

  /** An optional value: `None` stands for Java's `null` or an empty `Optional`. */
  datatype Option<+T> = None | Some(value: T)

  /** The outcome of a service call: a value, or the exception it throws. */
  datatype Result<+T, +E> = Success(value: T) | Failure(error: E)
}
