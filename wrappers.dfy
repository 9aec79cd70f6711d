/** The optional value used wherever the program may find nothing (a missing key, an exhausted input). */
module Wrappers {
  datatype Option<+T> = None | Some(value: T)
}
