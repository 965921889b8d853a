/** Failure-carrying datatypes shared by the whole model. */
module Wrappers {

  /** An optional value; `None` stands for a missing bound or an absent entry. */
  datatype Option<+T> = None | Some(value: T)

  /** The outcome of an operation that the script would abort with an exception. */
  datatype Result<+T, +E> = Success(value: T) | Failure(error: E)
}
