/** A value that may be missing: JavaScript's `undefined` or `null` for an
    optional field, an optional argument or a "no result" return. */
module Options {

  datatype Option<+T> = None | Some(value: T) {

    /** The value, or `default` when it is missing (a destructuring default). */
    function GetOr(default: T): T {
      match this
      case Some(v) => v
      case None => default
    }
  }
}
