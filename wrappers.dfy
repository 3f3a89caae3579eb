/** An optional value: a JavaScript `undefined` (None) or a present value. */
module Wrappers {
  datatype Option<+T> = None | Some(value: T)
}
