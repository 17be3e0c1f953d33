/** Small failure-carrying datatypes used by the loader and the line parser. */
module Wrappers {

  /** A value that may be missing. */
  datatype Option<+T> = None | Some(value: T)

  /** The outcome of an operation that either succeeds or fails with an error. */
  datatype Outcome<+E> = Pass | Fail(error: E)
}
