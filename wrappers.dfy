/** The optional value used for environment variables that may be unset. */
module Wrappers {
  datatype Option<+T> = None | Some(value: T)
}
