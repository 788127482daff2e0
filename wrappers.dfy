/** The optional value used for a DOM lookup or attribute that may be missing. */
module Wrappers {
  datatype Option<+T> = None | Some(value: T)
}
