/** Ruby's nil for an optional attribute. */
module Wrappers {
  datatype Option<+T> = None | Some(value: T)
}
