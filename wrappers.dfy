/** The optional value used wherever the source has a nullable column or a
    value that may be absent (`null` / `undefined`). */
module Wrappers {
  datatype Option<+T> = None | Some(value: T) {
    function GetOr(default: T): T {
      match this
      case Some(v) => v
      case None => default
    }
  }
}
