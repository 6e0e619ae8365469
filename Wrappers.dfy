/** The optional value used for error reports and catalog lookups. */
module Wrappers {
  datatype Option<+T> = None | Some(value: T)
}
