/** Values shared by both navigation helpers: optional values and string prefixes. */
module Common {

  /** An attribute or field that may be absent (`undefined` in JavaScript, `nil` in Ruby). */
  datatype Option<T> = None | Some(value: T)

  /** `s` begins with `p`; the meaning of Ruby's `start_with?` and of a `^`-anchored literal. */
  predicate StartsWith(s: string, p: string)
  {
    |p| <= |s| && s[..|p|] == p
  }
}
