/** Failure-compatible datatypes shared by the rest of the model. */
module Wrappers {

  /** A possibly missing value. Where JavaScript tests a value for truthiness,
      `None` stands for `null`/`undefined` and `Some` for an object. */
  datatype Option<+T> = None | Some(value: T)

  /** The outcome of a host lookup that either finds something or fails. */
  datatype Result<+T, +E> = Success(value: T) | Failure(error: E)

  /** How a JavaScript call completes: it returns a value or it throws. Either
      way it leaves the (modelled) state behind, since effects made before a
      throw are not undone. */
  datatype Completion<+S, +V, +E> = Return(state: S, value: V) | Throw(state: S, error: E)
}
