/** A key of a JSON object that may be missing. */
module Wrappers {

  datatype Option<T> = None | Some(value: T)

  /** Python's `d.get(key, default)`: the value when the key is present, `default` when it is not. */
  function ValueOr<T>(o: Option<T>, default: T): T {
    if o.Some? then o.value else default
  }
}
