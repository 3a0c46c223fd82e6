/** Failure-carrying datatypes shared by the viewer's pipeline. */
module Wrappers {

  /** A value that may be absent (a `std::string::npos` search, a failed decryption). */
  datatype Option<+T> = None | Some(value: T)

  /** Either a value or the error that stopped the computation. */
  datatype Result<+T, +E> = Success(value: T) | Failure(error: E)
}
