/** Optional values. `None` stands for a value that is absent; in the trimmer
    record it models the blank text `''` an input field starts with. */
module Wrappers {

  datatype Option<+T> = None | Some(value: T) {

    /** The wrapped value, or `default` when there is none. */
    function GetOr(default: T): T {
      match this
      case Some(v) => v
      case None => default
    }
  }
}
