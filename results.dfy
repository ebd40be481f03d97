/** Option, result and outcome values standing for JavaScript's `undefined`,
    resolved promises and rejected promises (thrown errors). */
module Results {

  /** A value that may be `undefined`. */
  datatype Option<T> = None | Some(value: T)

  /** A promise that resolves to `value` or rejects with an error message. */
  datatype Result<T> = Ok(value: T) | Err(error: string)

  /** A `Promise<void>`: it resolves, or rejects with an error message. */
  datatype Outcome = Pass | Fail(error: string)
}
