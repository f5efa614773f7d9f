module Wrappers {
  /** An optional value: a null pointer or a negative "unset" index in the source. */
  datatype Option<+T> = None | Some(value: T)
}
