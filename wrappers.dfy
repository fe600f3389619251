/** Option, standing for Python's `None` as the "no result" value. */
module Wrappers {

  datatype Option<+T> = None | Some(value: T)
}
