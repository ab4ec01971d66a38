/** An optional value: the model's stand-in for JavaScript's `null` / `undefined`. */
module Options {

  datatype Option<+T> = None | Some(value: T)

  /** JavaScript truthiness of an optional string: present and not empty. */
  predicate Truthy(s: Option<string>)
  {
    s.Some? && |s.value| > 0
  }
}
