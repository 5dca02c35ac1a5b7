/** The optional value returned where the source may have nothing to return. */
module Wrappers {
  datatype Option<+T> = None | Some(value: T)
}
