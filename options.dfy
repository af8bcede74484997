/** Optional values shared by every module. */
module Options {

  /** A value that may be absent: JavaScript's `null`/`undefined`, Python's `None`. */
  datatype Option<+T> = None | Some(value: T) {

    /** The value, or `default` when absent. */
    function GetOr(default: T): T {
      match this
      case Some(v) => v
      case None => default
    }
  }

  /**
   * A key looked up in a decoded JSON object: the key may be missing, present
   * with `null`, or present with a value.  Python's `d.get(k, default)` returns
   * the default only for a missing key.
   */
  datatype Lookup<+T> = Absent | Null | Present(value: T)
}
