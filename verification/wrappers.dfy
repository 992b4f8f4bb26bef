/** Failure-carrying datatypes shared by the models of the site's components. */
module Wrappers {

  /** A value that may be absent; models TypeScript's `T | null`. */
  datatype Option<+T> = None | Some(value: T)

  /** Either a computed value or the reason the computation throws. */
  datatype Result<+R, +E> = Success(value: R) | Failure(error: E)
}
