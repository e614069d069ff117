/** Values shared by the browser client and the server: optional values, results of
    steps that can throw, and octets. */
module Basics {

  datatype Option<+T> = None | Some(value: T)

  /** The outcome of a step that either yields a value or throws. */
  datatype Result<+T, +E> = Success(value: T) | Failure(error: E) {
    predicate IsFailure() {
      Failure?
    }

    function PropagateFailure<U>(): Result<U, E>
      requires Failure?
    {
      Failure(error)
    }

    function Extract(): T
      requires Success?
    {
      value
    }
  }

  /** An octet, as held in a Node Buffer or a browser Blob. */
  type Byte = b: int | 0 <= b < 256
}
