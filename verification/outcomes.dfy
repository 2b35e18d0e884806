/** Optional values and success/failure results shared by every module. */
module Outcomes {

  /** A value that may be absent, as a `null` reference or an omitted field is in the source. */
  datatype Option<+T> = None | Some(value: T)

  /** The outcome of an operation that either yields a value or reports an error. */
  datatype Result<+T, +E> = Ok(value: T) | Err(error: E)
}
