/** Python's `None` beside an ordinary value, shared by the three game modules. */
module Wrappers {

  datatype Option<+T> = None | Some(value: T)
}
