/** The optional value that stands for Kotlin's nullable types (`T?`). */
module Wrappers {

  datatype Option<+T> = None | Some(value: T) {

    /** `this ?: default` */
    function GetOr(default: T): T {
      match this
      case Some(v) => v
      case None => default
    }
  }
}
