/** A value that may be absent: a null pointer, or the result of a run that went wrong. */
module Wrappers {

  datatype Option<+T> = None | Some(value: T)
}
