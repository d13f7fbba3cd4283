/** The optional value used wherever PHP answers `null` or `isset` fails. */
module Wrappers {
  datatype Option<+T> = None | Some(value: T)
}
