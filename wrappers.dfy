/** Option, the usual Some/None datatype, used for attributes that may be absent. */
module Wrappers {

  datatype Option<+T> = None | Some(value: T)
}
