/** Option: every constructor or parser of the library that rejects its input
    returns None, and every one that succeeds returns Some. */
module Wrappers {

  datatype Option<+T> = None | Some(value: T)
}
