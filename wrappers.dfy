/** Optional values: a missing form field, a missing header, a count that does not parse. */
module Wrappers {

  datatype Option<T> = None | Some(value: T) {

    /** The value, or `default` when there is none (Python's `d.get(key, default)`). */
    function GetOr(default: T): T {
      if Some? then value else default
    }
  }
}
