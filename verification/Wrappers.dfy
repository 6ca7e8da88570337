/** A value that may be absent: the NULL pointers and NOT_FOUND results of the modelled code. */
module Wrappers {
  datatype Option<+T> = None | Some(value: T)
}
