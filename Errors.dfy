/** The failure vocabulary of the Tor client: every error the client raises is a
    ProxyException carrying a human-readable message. */
module Errors {

  /** The one error kind the client raises (ProxyException(string message)). */
  datatype ProxyError = ProxyException(message: string)

  datatype Option<+T> = None | Some(value: T) {
    function GetOr(default: T): T {
      match this
      case Some(v) => v
      case None => default
    }
  }

  /** The result of an operation that returns nothing but may throw. */
  datatype Outcome = Pass | Fail(error: ProxyError)

  /** The result of an operation that returns a value but may throw. */
  datatype Result<+T> = Ok(value: T) | Err(error: ProxyError)
}
