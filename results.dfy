/** Outcomes of operations that can raise. */
module Results {
  /** A value, or the exception that was raised instead. */
  datatype Result<T, E> = Ok(value: T) | Err(error: E)

  datatype Option<T> = None | Some(value: T)

  /** The exceptions raised by the helpers of utils.py. */
  datatype Exception =
    | ValueError(message: string)
      /** `RuntimeError(message, dtype)`: raised with two arguments. */
    | RuntimeError(message: string, detail: string)
}
