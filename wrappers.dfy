/** Python's `None` next to a value, made explicit. */
module Wrappers {

  datatype Option<+T> = None | Some(value: T)
}
