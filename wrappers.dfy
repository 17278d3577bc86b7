/** The optional value used where the source writes `x || null` or returns `undefined`. */
module Wrappers {
  datatype Option<T> = None | Some(value: T)
}
