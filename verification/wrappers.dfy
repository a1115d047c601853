/** The optional value used by both handlers: JavaScript's `undefined` / a missing match. */
module Wrappers {
  datatype Option<+T> = None | Some(value: T)
}
