/** Option and the outcome of a network fetch, shared by every other module. */
module Wrappers {

  /** A value that may be absent (Python's `None`, or a missing key). */
  datatype Option<+T> = None | Some(value: T) {
    function GetOr(default: T): T {
      match this
      case Some(v) => v
      case None => default
    }
  }

  /** The outcome of one network call: a value, or an exception raised by
      the call (a network failure, or a non-2xx status rejected by
      `raise_for_status`). */
  datatype Fetched<+T> = Ok(value: T) | NetworkError
}
