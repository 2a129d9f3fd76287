/** Small helper datatypes shared by the modules of this project. */
module Wrappers {

  /** A value that may be absent: a Java `null` Integer, an unset timestamp, a missing bucket. */
  datatype Option<+T> = None | Some(value: T)
}
