/** An optional value: what a single-row SQL query returns (a row or nothing),
    and the contents of the session's `user` slot. */
module Wrappers {

  datatype Option<+T> = None | Some(value: T)
}
