/** The optional value used for the interpreter's fatal conditions. */
module Wrappers {
  datatype Option<+T> = None | Some(value: T)
}
