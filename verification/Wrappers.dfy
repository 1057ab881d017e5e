/** The result of an operation that may have nothing to give. */
module Wrappers {
  datatype Option<+T> = None | Some(value: T)
}
