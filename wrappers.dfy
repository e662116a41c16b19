/** The Option datatype used for operations that Python lets raise ValueError. */
module Wrappers {

  datatype Option<+T> = None | Some(value: T)
}
