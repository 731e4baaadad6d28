/** The optional value used for nullable references and failed lookups. */
module Wrappers {
  datatype Option<+T> = None | Some(value: T)
}
