/** Optional values and query outcomes shared by the other modules. */
module Wrappers {

  /** A field that may be absent from a stored document. */
  datatype Option<+T> = None | Some(value: T) {

    /** The value, or `default` when the field is absent. */
    function GetOr(default: T): T {
      match this
      case Some(v) => v
      case None => default
    }
  }

  /** The outcome of a call that can fail, such as a store query. */
  datatype Result<+T, +E> = Success(value: T) | Failure(error: E)
}
