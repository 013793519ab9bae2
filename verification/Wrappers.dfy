/** The value a query or a remote call may or may not give. */
module Wrappers {
  datatype Option<+T> = None | Some(value: T)
}
