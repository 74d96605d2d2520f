/** The optional value used where the script reads `undefined`. */
module Wrappers {
  datatype Option<+T> = None | Some(value: T)
}
