/** The two result shapes of the program: a missing value and a failed call. */
module Options {
  datatype Option<+T> = None | Some(value: T)
  datatype Result<+T, +E> = Success(value: T) | Failure(error: E)
}
