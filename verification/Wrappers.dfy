/** The optional values and results shared by every module of the project.
    A Go nil pointer is None, a Go (value, error) pair is a Result. */
module Wrappers {

  datatype Option<+T> = None | Some(value: T)

  datatype Result<+R, +E> = Success(value: R) | Failure(error: E)

  /** Stands for an error whose text the model does not look at. */
  datatype Unseen = Unseen
}
