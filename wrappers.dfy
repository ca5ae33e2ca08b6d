/** The optional value used wherever the Go code returns a nil slice or may fail to find something. */
module Wrappers {
  datatype Option<+T> = None | Some(value: T)
}
