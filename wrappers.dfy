/** Optional values: a SQL NULL, a missing form field, an `undefined` property. */
module Wrappers {

  datatype Option<+T> = None | Some(value: T)

  /** A JavaScript string that may be absent, read as a truth value: `!s` is
      true for both `undefined`/`null` and the empty string. */
  predicate Present(s: Option<string>)
  {
    s.Some? && s.value != ""
  }
}
