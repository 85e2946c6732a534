/** The optional value used for "no match" and "nothing printed". */
module Wrappers {
  datatype Option<+T> = None | Some(value: T)
}
