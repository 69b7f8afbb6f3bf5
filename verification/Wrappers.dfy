/** The option type used by the specifications. */
module Wrappers {
  datatype Option<+T> = None | Some(value: T)
}
