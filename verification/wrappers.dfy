/** Failure-carrying return types shared by the calculator and slug models.
    A JavaScript `throw` becomes an `Err`, a `null` result becomes `None`. */
module Wrappers {

  /** A value that may be absent (the source's `null`). */
  datatype Option<+T> = None | Some(value: T)

  /** Either a computed value or the error that a call threw. */
  datatype Result<+T, +E> = Ok(value: T) | Err(error: E)
}
