/** The optional value that stands for Python's "return nothing" (None). */
module Wrappers {

  datatype Option<+T> = None | Some(value: T)
}
