/** Ruby's `nil`-or-value, as used by the helpers for optional items and attributes. */
module Wrappers {

  datatype Option<+T> = None | Some(value: T)
}
