/** Option and Result used by the model. */
module Wrappers {

  /** A value that may be absent: an optional GraphQL field, a lookup that
      finds nothing, or an id argument that is missing or does not parse. */
  datatype Option<+T> = None | Some(value: T)

  /** The outcome of a resolver that can throw: the value it returns, or the
      message of the error it throws. */
  datatype Result<+R, +E> = Success(value: R) | Failure(error: E)
}
