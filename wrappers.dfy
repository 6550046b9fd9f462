/** An optional value, for the "no table" and "no such column" cases. */
module Wrappers {

  datatype Option<+T> = None | Some(value: T)
}
