/** The optional value that stands for Kotlin's nullable types (`Double?`, `String?`). */
module Options {

  datatype Option<+T> = None | Some(value: T) {

    /** The `?:` (elvis) operator: the value if there is one, else `default`. */
    function GetOr(default: T): T
    {
      match this
      case Some(v) => v
      case None => default
    }
  }
}
