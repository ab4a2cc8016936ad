/** The optional value an iterator step produces: `Some(item)` or `None` at the end. */
module Wrappers {

  datatype Option<+T> = None | Some(value: T)
}
