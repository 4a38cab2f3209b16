/** The absent-or-present value that stands for Python's `None` or a list. */
module Wrappers {

  datatype Option<+T> = None | Some(value: T)
}
