/** What the modules share: C's "a pointer or NULL", and isspace. */
module Prelude {
  datatype Option<+T> = None | Some(value: T)

  /** isspace */
  predicate IsSpace(c: char) { c == ' ' || '\t' <= c <= '\r' }
}
