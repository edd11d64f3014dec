/** An optional value: Some(v) or None. */
module Wrappers {

  datatype Option<+T> = None | Some(value: T)
}
