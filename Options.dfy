/** PHP's nullable values (`?string`, `?EditorDriverDefinition`) as an option type. */
module Options {

  datatype Option<+T> = None | Some(value: T) {

    /** `$x ?? $default` for a nullable value. */
    function GetOr(default: T): T {
      match this
      case Some(v) => v
      case None => default
    }
  }
}
