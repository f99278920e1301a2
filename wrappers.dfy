/** The Option, Result and Outcome datatypes used by the validator model. */
module Wrappers {

  /** A value that may be missing: a module-level variable that is bound (Some) or not yet (None). */
  datatype Option<+T> = None | Some(value: T)

  /** Either a value or the error that stopped the computation. */
  datatype Result<+R, +E> = Success(value: R) | Failure(error: E)

  /** The outcome of a check that returns nothing on success and raises on failure. */
  datatype Outcome<+E> = Pass | Fail(error: E)
}
