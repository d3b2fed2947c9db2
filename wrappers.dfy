/** Optional values: the model's stand-in for a JavaScript value that may be `undefined`. */
module Wrappers {

  datatype Option<+T> = None | Some(value: T)

  /** JavaScript truthiness of a string that may be missing: present and not empty. */
  predicate Present(s: Option<string>)
  {
    s.Some? && s.value != ""
  }
}
