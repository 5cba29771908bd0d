/** Success/failure values for the operations whose Go originals return an
    error or terminate the process (log.Fatal, a runtime panic). */
module Wrappers {

  datatype Option<+T> = None | Some(value: T)

  datatype Result<+R, +E> = Success(value: R) | Failure(error: E)
}
