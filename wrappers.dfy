/** The optional value used for Java references that may be null. */
module Wrappers {

  /** `None` stands for a Java `null`. */
  datatype Option<+T> = None | Some(value: T)
}
