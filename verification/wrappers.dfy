/** Failure-compatible wrappers shared by every decoder of the model.
- Option<T>: a value that may be absent (an all-zero public key decodes to None).
- Result<R, E>: either a decoded value or the error that stopped decoding; usable with `:-`.
 */
module Wrappers {

  datatype Option<+T> = None | Some(value: T)

  datatype Result<+R, +E> = Success(value: R) | Failure(error: E) {

    predicate IsFailure() {
      Failure?
    }

    function PropagateFailure<U>(): Result<U, E>
      requires Failure?
    {
      Failure(error)
    }

    function Extract(): R
      requires Success?
    {
      value
    }
  }
}
