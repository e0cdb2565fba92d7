/** Optional values and error results shared by the containers. */
module Wrappers {

  datatype Option<T> = None | Some(value: T)

  /** The exceptions the containers throw. */
  datatype Error = OutOfRange

  datatype Result<T> = Ok(value: T) | Err(error: Error)
}
