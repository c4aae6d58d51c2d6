/** The optional value used for parent links and for the result of a heap pop. */
module Wrappers {
  datatype Option<+T> = None | Some(value: T)
}
