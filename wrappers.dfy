/** The optional-value type used for operations that can fail. */
module Wrappers {

  /** `None` stands for an operation that has no result. */
  datatype Option<+T> = None | Some(value: T)
}
