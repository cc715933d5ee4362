/** An optional value, for searches that can fail. */
module Opt {
  datatype Option<T> = None | Some(value: T)
}
