/** The optional value used for PHP's nullable values and for "no row found". */
module Wrappers {

  datatype Option<+T> = None | Some(value: T)
}
