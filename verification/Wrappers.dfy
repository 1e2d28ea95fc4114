/** The optional value used throughout the project for "may be absent" or "may fail". */
module Wrappers {
  datatype Option<+T> = None | Some(value: T)
}
