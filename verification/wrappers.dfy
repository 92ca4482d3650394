/** The optional value used wherever the scripts return `None`/`null`/`undefined`. */
module Wrappers {

  datatype Option<+T> = None | Some(value: T)
}
