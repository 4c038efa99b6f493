/** The optional value used for a frame slot that may still be empty and for a
    draw call that may do nothing. */
module Wrappers {

  datatype Option<+T> = None | Some(value: T)
}
