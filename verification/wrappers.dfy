/** Small failure-carrying datatypes used by the model. */
module Wrappers {

  /** An optional value: a nullable column or a lookup that may find nothing. */
  datatype Option<+T> = None | Some(value: T)

  /** The outcome of a database write: the new state, or the error the database raised. */
  datatype Result<+R, +E> = Success(value: R) | Failure(error: E)
}
