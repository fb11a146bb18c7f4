/** Optional values, standing for `std::string::npos`, null pointers and absent map entries. */
module Wrappers {
  datatype Option<T> = None | Some(value: T)

  /** The outcome of a call that may throw `std::runtime_error` with a message. */
  datatype Result<T> = Success(value: T) | Failure(error: string)
}
