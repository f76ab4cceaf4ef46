/** Small value datatypes shared by the modules of this project. */
module Wrappers {
  datatype Option<+T> = None | Some(value: T)

  /** A fallible result: the exceptions and error returns of the client become `Failure`. */
  datatype Result<+T, +E> = Success(value: T) | Failure(error: E)
}
