/** The optional value used for "no such row" and "no image". */
module Wrappers {

  datatype Option<+T> = None | Some(value: T)
}
