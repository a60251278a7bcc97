/** Failures of the ledger and the failure-carrying result types used throughout the model. */
module Errors {

  /** Status codes a ClientError carries (the HttpURLConnection constants the ledger uses). */
  const BadRequest: int := 400
  const NotFound: int := 404
  const Conflict: int := 409
  const PreconditionFailed: int := 412

  /** A runtime exception raised inside the ledger: a ClientError with its status code,
      or any other runtime exception (a malformed amount, say), which the server reports as 500. */
  datatype Error =
    | ClientError(code: int, message: string)
    | Unexpected(message: string)

  datatype Option<+T> = None | Some(value: T)

  /** A value, or the exception that was thrown instead of returning it. */
  datatype Result<+T> = Ok(value: T) | Err(error: Error)

  /** Normal completion of a void call, or the exception it threw. */
  datatype Outcome = Pass | Fail(error: Error)
}
