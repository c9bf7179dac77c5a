/** Python's `None` as a value: a field that is missing or null is `None`. */
module Wrappers {

  datatype Option<+T> = None | Some(value: T)
}
