/** The optional value used wherever the script works with `null`/`undefined`. */
module Wrappers {

  datatype Option<+T> = None | Some(value: T)
}
