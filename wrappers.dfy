/** Option and Result, the two wrappers the rest of the model returns. */
module Wrappers {

  /** A value or nothing: PHP's `null` where the source returns "no row". */
  datatype Option<+T> = None | Some(value: T)

  /** A value or the exception the source would throw instead. */
  datatype Result<+R, +E> = Ok(value: R) | Err(error: E)
}
