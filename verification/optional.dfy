/** The Some/None datatype used wherever the application has a nullable value
    (a missing row, a NULL column, an exception turned into "no value"). */
module Optional {

  datatype Option<+T> = None | Some(value: T) {

    /** The wrapped value, or `default` when there is none. */
    function GetOr(default: T): T {
      match this
      case Some(v) => v
      case None => default
    }
  }
}
