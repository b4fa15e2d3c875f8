/** The optional-value type shared by the parsers and the chmod model. */
module Wrappers {

  /** `None` stands for Rust's `None` or for an `Err` whose kind the caller discards. */
  datatype Option<+T> = None | Some(value: T) {

    /** The wrapped value, or `default` when there is none. */
    function GetOr(default: T): T {
      match this
      case Some(v) => v
      case None => default
    }
  }
}
