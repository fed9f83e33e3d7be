/** Optional values. `None` stands for JavaScript's `undefined` (or `null`
    where the source treats the two alike). */
module Options {

  datatype Option<+T> = None | Some(value: T) {

    /** The value, or `default` when absent. */
    function GetOr(default: T): T {
      match this
      case Some(v) => v
      case None => default
    }
  }
}
