/** Optional values and results that may be errors. */
module Wrappers {
  // They stand for Python's None and for its exceptions.

  datatype Option<+T> = None | Some(value: T)

  datatype Result<+T> = Ok(value: T) | Error
}
