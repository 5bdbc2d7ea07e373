/** Optional values and results that may fail, shared by the model. */
module Wrappers {

  /** A value that may be absent; stands for Python's `Optional[...]` (None or a value). */
  datatype Option<T> = None | Some(value: T)

  /** The outcome of an operation that can raise: a value, or the error it raises. */
  datatype Result<T, E> = Success(value: T) | Failure(error: E)
}
