/** A value that may be absent: the model's stand-in for TypeScript's `T | null` and `T | undefined`. */
module Maybe {

  datatype Option<+T> = None | Some(value: T)

  /** JavaScript truthiness of a `string | null`: null and the empty string are falsy. */
  predicate Truthy(s: Option<string>)
  {
    s.Some? && s.value != ""
  }
}
