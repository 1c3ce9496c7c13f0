/** The engine's `null`-or-value results (a collision query that found
    nothing, an optional update callback, an absent default field). */
module Optional {

  datatype Option<+T> = None | Some(value: T) {

    /** The value, or `default` when there is none. */
    function GetOr(default: T): T {
      match this
      case Some(v) => v
      case None => default
    }
  }
}
