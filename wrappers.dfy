/** The optional value used for absent keys, missing nodes and failed queries. */
module Wrappers {
  datatype Option<+T> = None | Some(value: T)
}
