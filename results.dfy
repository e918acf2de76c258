/** Failure-carrying values used across the model: Go's `(T, error)` pairs
    and bare `error` returns. */
module Results {

  datatype Option<+T> = None | Some(value: T)

  /** A value or an error message (Go's `(*T, error)` with exactly one non-nil). */
  datatype Result<+T> = Ok(value: T) | Err(message: string)

  /** Go's bare `error` result: nil (`Pass`) or an error (`Fail`). */
  datatype Outcome = Pass | Fail(error: string)
}
