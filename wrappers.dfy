/** The optional value used where the C code reports "nothing" through a
    status return and leaves an out-parameter unwritten. */
module Wrappers {
  datatype Option<+T> = None | Some(value: T)
}
