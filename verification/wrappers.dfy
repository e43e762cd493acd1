/** The optional value used wherever the C code returns a pointer that may be NULL. */
module Wrappers {

  datatype Option<+T> = None | Some(value: T) {

    /** True if the pointer is NULL */
    predicate IsNull() {
      None?
    }

    /** The value, or a default for NULL */
    function GetOr(default: T): T {
      match this
      case Some(v) => v
      case None => default
    }
  }
}
