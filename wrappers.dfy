/** Failure-carrying values shared by the hyperbolic and Lie-algebra models. */
module Wrappers {

  /** "No result": used where SymPy returns None or raises. */
  datatype Option<+T> = None | Some(value: T)

  /** A value or the error SymPy would raise instead. */
  datatype Result<+T, +E> = Success(value: T) | Failure(error: E)
}
