/** Optional values and the outcome of a JavaScript computation that may throw. */
module Outcomes {

  datatype Option<T> = None | Some(value: T)

  /** A value, or an exception thrown before one was produced. */
  datatype Outcome<T> = Value(value: T) | Throws
}
