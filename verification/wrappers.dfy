/** The failure-carrying datatypes the rest of the model uses. */
module Wrappers {

  /** A value that may be absent, such as a form field missing from a POST body. */
  datatype Option<+T> = None | Some(value: T)

  /** Either a successful value or an error. */
  datatype Result<+T, +E> = Success(value: T) | Failure(error: E)
}
