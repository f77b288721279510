/** The optional value used throughout the model: a dictionary key that may be absent. */
module Options {

  datatype Option<T> = None | Some(value: T) {

    /** The value when present, else the given default (Python's `d.get(key, default)`). */
    function GetOr(default: T): T {
      match this
      case Some(v) => v
      case None => default
    }
  }
}
