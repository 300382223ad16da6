/** Optional values and success-or-error results, shared by the controllers. */
module Wrappers {

  /** An optional value: a field missing from a request body, or a lookup that found nothing. */
  datatype Option<+T> = None | Some(value: T) {

    /** The value, or `default` when there is none (a JavaScript default parameter). */
    function GetOr(default: T): T {
      match this
      case Some(v) => v
      case None => default
    }
  }

  /** The outcome of a request handler: a value sent with status 200, or an error. */
  datatype Result<+T, +E> = Ok(value: T) | Err(error: E)
}
