/** The conventional Some/None datatype, used for the source's optional values. */
module Wrappers {
  datatype Option<+T> = None | Some(value: T)
}
