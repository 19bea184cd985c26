/** The optional value returned by `flush`, `next_block` and `get`. */
module Wrappers {
  datatype Option<+T> = None | Some(value: T)
}
