/** The nullable values of the modelled code: a C# `string?` that may be `null`
    is an `Option<string>` that may be `None`. */
module Wrappers {

  datatype Option<+T> = None | Some(value: T) {

    /** Returns the value, or `default` when there is none. */
    function GetOr(default: T): T {
      match this
      case Some(v) => v
      case None => default
    }
  }
}
