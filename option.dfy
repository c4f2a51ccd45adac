/** A value that may be absent, as an optional field of a JavaScript object. */
module Opt {
  datatype Option<T> = None | Some(value: T)
}
