/** Values that the Swift code expresses with optionals and thrown errors. */
module Outcomes {

  /** Swift's `Optional`. */
  datatype Option<+T> = None | Some(value: T)

  /**
   * The errors a page fetch can end with. `BadURL` is the `URLError(.badURL)`
   * thrown when no page link has the requested relation; every other error
   * (transport, decoding, a cancelled delay) is carried opaquely by `Thrown`.
   */
  datatype Failure = BadURL | Thrown(code: int)

  /** The result of an `async throws` call: a value, or the error it threw. */
  datatype Result<+T> = Ok(value: T) | Err(error: Failure)
}
