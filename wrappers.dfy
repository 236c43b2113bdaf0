/** Optional values: a JavaScript field that may be `undefined`. */
module Wrappers {

  datatype Option<+T> = None | Some(value: T) {

    /** The value, or `default` when absent (`x || default` on an object). */
    function GetOr(default: T): T {
      match this
      case Some(v) => v
      case None => default
    }
  }

  /** JavaScript truthiness of a string that may be undefined: present and non-empty. */
  predicate Present(o: Option<string>) {
    o.Some? && o.value != ""
  }
}
