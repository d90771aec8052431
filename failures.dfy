/** Error values standing in for the two places where the cipher aborts the process. */
module Failures {

  /** InvalidSymbol: a character outside the alphabet reached the codec.
      NoKeywordMatch: no wheel pair reveals a known-plaintext keyword. */
  datatype Error = InvalidSymbol | NoKeywordMatch

  /** The outcome of an operation that the source would abort on failure. */
  datatype Result<T> = Ok(value: T) | Err(error: Error)
}
