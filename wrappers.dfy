/** Optional values: JavaScript's `null`/`undefined` and Rust's `Option`. */
module Wrappers {
  datatype Option<+T> = None | Some(value: T)

  /** JavaScript truthiness of a string that may be `null` or `undefined`:
      the empty string is falsy like a missing one. */
  predicate Truthy(s: Option<string>)
  {
    s.Some? && s.value != ""
  }
}
