/** Failure-carrying datatypes shared by every module of the model. */
module Wrappers {

  /** A nullable value: a SQL column that may hold NULL. */
  datatype Option<+T> = None | Some(value: T)

  /** The outcome of a controller action: a value, or an error kind. */
  datatype Result<+R, +E> = Success(value: R) | Failure(error: E)
}
