/** Option and Result, the two wrappers the parser model returns. */
module Wrappers {

  /** A value that may be absent: a .NET reference that may be null, or a conversion that may fail. */
  datatype Option<+T> = None | Some(value: T)

  /** The outcome of an operation that either produces a value or throws. */
  datatype Result<+R, +E> = Ok(value: R) | Err(error: E)
}
