/** The "absent" result: a C++ null payload pointer becomes None. */
module Wrappers {
  datatype Option<+T> = None | Some(value: T)
}
