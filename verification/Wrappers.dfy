/** The results shared by the modules: a value that may be missing, and one that may be an exception. */
module Wrappers {
  datatype Option<+T> = None | Some(value: T)

  /** A value, or the exception the program raises */
  datatype Result<+T> = Success(value: T) | Failure
}
