/** The optional value used for the watched path and the sleep duration. */
module Wrappers {

  datatype Option<+T> = None | Some(value: T)
}
