/** The optional value used wherever the editor keeps `null` or `undefined`. */
module Wrappers {
  datatype Option<+T> = None | Some(value: T)
}
