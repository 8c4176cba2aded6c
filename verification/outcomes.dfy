/** Failure-carrying datatypes shared by every handler of the approve-list
    controller: an optional value, the request failure categories with their
    HTTP status codes, and a result that is either a value or a failure. */
module Outcomes {

  /** A value that may be absent: a nullable column, an unset environment
      variable or an omitted query parameter. */
  datatype Option<+T> = None | Some(value: T) {

    /** The value, or `default` when absent (the `page = "1"` style default). */
    function GetOr(default: T): T {
      match this
      case Some(v) => v
      case None => default
    }
  }

  /** The ways a handler of the controller answers with an error. */
  datatype Failure =
    | MissingFields   // url, title or detail missing on create
    | InvalidApiKey   // the create request's key differs from the configured one
    | NotFound        // no record with the requested id
    | Internal        // anything caught by the handler's catch block

  /** The HTTP status the error middleware sends for each failure. */
  function StatusCode(f: Failure): int {
    match f
    case MissingFields => 400
    case InvalidApiKey => 400
    case NotFound => 404
    case Internal => 500
  }

  /** Either the handler's payload or the failure it reports. */
  datatype Result<+T> = Ok(value: T) | Err(failure: Failure)
}
