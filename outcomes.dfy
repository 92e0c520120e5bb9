/** Values shared by every component: optional values, and the way a call
    either returns or throws. */
module Outcomes {

  datatype Option<+T> = None | Some(value: T)

  /** A thrown exception, as far as the application inspects it. */
  datatype Failure =
      /** Spring's ResponseStatusException: an HTTP status and a reason. */
    | ResponseStatus(status: int, reason: string)
      /** Any other Throwable, with its message; it leaves as status 500. */
    | Fault(message: string)

  /** The value a Java method returns, or the exception it throws. */
  datatype Result<+T> = Ok(value: T) | Err(failure: Failure)

  const BAD_REQUEST := 400
  const UNAUTHORIZED := 401
  const NOT_FOUND := 404
  const INTERNAL_SERVER_ERROR := 500
}
