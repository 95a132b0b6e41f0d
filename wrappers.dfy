/** The `Option` and `Result` types the handlers use, as plain datatypes. */
module Wrappers {

  datatype Option<+T> = None | Some(value: T) {

    /** The value, or `default` when there is none (`unwrap_or`). */
    function GetOr(default: T): T {
      match this
      case Some(v) => v
      case None => default
    }
  }

  /** An HTTP handler's `Result<T, StatusCode>`. */
  datatype Result<+T, +E> = Ok(value: T) | Err(error: E)
}

/** The HTTP status codes the handlers answer with (axum's `StatusCode` constants). */
module Http {

  type StatusCode = int

  const OK: StatusCode := 200
  const BAD_REQUEST: StatusCode := 400
  const NOT_ACCEPTABLE: StatusCode := 406
  const URI_TOO_LONG: StatusCode := 414
  const RANGE_NOT_SATISFIABLE: StatusCode := 416
  const IM_A_TEAPOT: StatusCode := 418
  const UPGRADE_REQUIRED: StatusCode := 426
  const UNAVAILABLE_FOR_LEGAL_REASONS: StatusCode := 451
}
