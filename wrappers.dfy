/** An optional value: used for the position of an I/O fault that may or may not happen. */
module Wrappers {

  datatype Option<T> = None | Some(value: T)
}
