/** The optional values used where the Go code returns nil or a second boolean. */
module Wrappers {
  datatype Option<+T> = None | Some(value: T)
}
