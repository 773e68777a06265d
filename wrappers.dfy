/** Failure-compatible result types standing in for the exceptions and the
    null returns of the tree's public operations. */
module Wrappers {

  /** The exceptions the tree throws (the null-key exception is not modelled:
      keys here are integers and can never be null). */
  datatype Error = KeyNotFound | DuplicateKey

  /** A key or child slot that may be empty, in place of a null return. */
  datatype Option<+T> = None | Some(value: T)

  /** The outcome of an operation that either returns a value or throws. */
  datatype Result<+T> = Ok(value: T) | Err(error: Error) {

    predicate IsFailure() {
      Err?
    }

    function PropagateFailure<U>(): Result<U>
      requires Err?
    {
      Err(error)
    }

    function Extract(): T
      requires Ok?
    {
      value
    }
  }
}
