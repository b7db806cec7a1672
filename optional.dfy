/** Python's `None`-or-value, used for optional columns, environment variables and
    calls into collaborators that can raise. */
module Optional {

  datatype Option<+T> = None | Some(value: T) {

    /** The value, or `default` when absent. */
    function GetOr(default: T): T {
      match this
      case Some(v) => v
      case None => default
    }
  }
}
