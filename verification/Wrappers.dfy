/** Option, used by every module that models a value which may be missing. */
module Wrappers {
  datatype Option<+T> = None | Some(value: T)
}
