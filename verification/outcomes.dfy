/** The two result shapes the model's partial operations return. */
module Outcomes {

  /** A value that may be absent, as a function that can return nothing. */
  datatype Option<T> = None | Some(value: T)

  /** Either a value or the error that prevented computing it. */
  datatype Result<T, E> = Success(value: T) | Failure(error: E)
}
