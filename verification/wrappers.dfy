/** Failure-compatible wrappers shared by every module of the model.
    `Option` stands for the source's `T | null` / optional fields, and
    `Outcome` for the `{ success, message }` replies of the user service. */
module Wrappers {

  datatype Option<+T> = None | Some(value: T) {
    function GetOr(default: T): T {
      match this
      case Some(v) => v
      case None => default
    }
  }

  datatype Outcome<+E> = Pass | Fail(error: E)
}
