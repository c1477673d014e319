/** Option and Result, used for Python's `None` and for the error dictionaries
    (`{"success": False, "error": ...}`) that the lookup returns. */
module Wrappers {

  datatype Option<+T> = None | Some(value: T) {
    /** `x or default` for an optional value */
    function GetOr(default: T): T {
      match this
      case Some(v) => v
      case None => default
    }
  }

  /** A lookup outcome: a value, or the message the user is shown. */
  datatype Result<+T> = Ok(value: T) | Err(error: string)
}
