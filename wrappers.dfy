/** The optional value used for nullable cells and absent dictionary entries. */
module Wrappers {
  datatype Option<+T> = None | Some(value: T)
}
