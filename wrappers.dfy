/** The optional value that stands for Python's `None` or a missing match. */
module Wrappers {

  datatype Option<T> = None | Some(value: T)
}
