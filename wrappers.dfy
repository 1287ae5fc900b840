/** Small value types shared by the modules of this project. */
module Wrappers {

  /** A value that may be absent: `None` plays the part of a null reference. */
  datatype Option<T> = None | Some(value: T)
}
