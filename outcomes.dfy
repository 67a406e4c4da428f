/** Outcomes shared by the modules: a value that may be absent, and a result that may be an exception. */
module Outcomes {

  /** A Java reference that may be null. */
  datatype Option<T> = None | Some(value: T)

  /** Outcome of an operation that either returns a value or throws `IllegalArgumentException` (or a bounds exception). */
  datatype Result<T> = Success(value: T) | Failure
}
