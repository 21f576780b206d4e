/** The conventional Some/None datatype, used where the source may see `undefined`. */
module Wrappers {
  datatype Option<+T> = None | Some(value: T)
}
