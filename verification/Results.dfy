/** Optional values and thrown domain errors. */
module Results {

  datatype Option<+T> = None | Some(value: T)

  datatype ErrorCode =
    | REQUEST_NOT_FOUND
    | ILLEGAL_STATUS_TRANSITION
    | INVALID_DAYS
    | INVALID_DIMENSIONS
    | IDEMPOTENCY_KEY_CONFLICT
    | INSUFFICIENT_BALANCE
    | CONFLICT
    | HCM_UNAVAILABLE
    | CHECK_VIOLATION // raised by the database, not by the service
    | HANDLER_FAILED  // raised by a request handler

  datatype Result<+T> = Ok(value: T) | Thrown(code: ErrorCode)
}
