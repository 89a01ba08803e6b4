/** The optional value used for every pointer that may be null. */
module Wrappers {

  /** `None` plays the part of a null pointer, `Some(v)` of a valid one. */
  datatype Option<+T> = None | Some(value: T)
}
