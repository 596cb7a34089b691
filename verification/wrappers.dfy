/** Failure-carrying return values used where the C++ program returns NULL,
    returns false, or throws. */
module Wrappers {

  /** A value that may be absent; `None` plays the role of a NULL pointer. */
  datatype Option<+T> = None | Some(value: T)

  /** Either a value or the reason there is none. */
  datatype Result<+R, +E> = Success(value: R) | Failure(error: E)
}
