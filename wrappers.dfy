/** The optional value used for nullable columns and absent ages. */
module Wrappers {
  datatype Option<+T> = None | Some(value: T)
}
