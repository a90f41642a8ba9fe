/** Small value wrappers shared by the list-store modules. */
module Wrappers {

  /** Ruby's `nil`-or-value: a helper that returns a string or `nil`, or an array slot that may be empty. */
  datatype Option<+T> = None | Some(value: T)
}
