/** A nullable column value. */
module Wrappers {

  datatype Option<+T> = None | Some(value: T)
}
