/** A value that may be absent: a number that did not parse, a net worth that cannot be formed. */
module Wrappers {
  datatype Option<+T> = None | Some(value: T)
}
