/** The optional-value datatype used for the app's nullable fields
    (`String?` error texts) and for lookups that can miss. */
module Wrappers {

  datatype Option<+T> = None | Some(value: T) {

    /** The value, or `default` when there is none (Kotlin's `?:`). */
    function GetOr(default: T): T {
      match this
      case Some(v) => v
      case None => default
    }
  }
}
