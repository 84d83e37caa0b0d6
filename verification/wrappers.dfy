/** The absent-or-present value used wherever the application holds a
    nullable field: a JSON property that may be missing, a store reply that
    may carry no row, the `adminAuth` entry of the browser's local storage. */
module Wrappers {

  datatype Option<+T> = None | Some(value: T) {

    /** The carried value, or `default` when there is none. */
    function GetOr(default: T): T {
      match this
      case Some(v) => v
      case None => default
    }
  }
}
