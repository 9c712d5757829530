/** Option values stand for the Go `(value, error)` results of the core's collaborators:
    `None` is a failed call, `Some(v)` a successful one. */
module Wrappers {

  datatype Option<+T> = None | Some(value: T) {

    /** The wrapped value, or `default` when there is none. */
    function GetOr(default: T): T {
      match this
      case Some(v) => v
      case None => default
    }
  }
}
