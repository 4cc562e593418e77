/** C# `null` for reference values: a nullable string or date is an `Option`. */
module Optional {

  datatype Option<+T> = None | Some(value: T) {

    /** The C# null-coalescing `x ?? fallback`. */
    function GetOr(fallback: T): T {
      match this
      case Some(v) => v
      case None => fallback
    }
  }
}
