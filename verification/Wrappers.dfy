/** The Option type used wherever the source uses a value or None. */
module Wrappers {

  datatype Option<+T> = None | Some(value: T)

  /** Python truthiness of an optional string: None and "" are falsy. */
  predicate Truthy(s: Option<string>) {
    s.Some? && |s.value| > 0
  }
}
