/** The optional value used for regex matches and request parameters. */
module Wrappers {
  datatype Option<+T> = None | Some(value: T)
}
