/** The optional value that models a pointer which may be NULL. */
module Wrappers {
  datatype Option<+T> = None | Some(value: T)
}
