/** Optional values and results with an error, shared by every module of the model. */
module Wrappers {

  /** A value that may be absent (TypeScript's `T | undefined` or `T | null`). */
  datatype Option<+T> = None | Some(value: T)

  /** The outcome of an operation that throws: `Ok` on a normal return, `Err` with the error's message. */
  datatype Result<+T, +E> = Ok(value: T) | Err(error: E)
}
