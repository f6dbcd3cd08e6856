/** Failure-carrying values used for the downloader's error paths (Python exceptions). */
module Wrappers {

  datatype Option<+T> = None | Some(value: T)

  datatype Result<+T, +E> = Success(value: T) | Failure(error: E)
}
