/** The conventional optional value, used where the source has `null`, `undefined` or an error. */
module Wrappers {
  datatype Option<+T> = None | Some(value: T)
}
