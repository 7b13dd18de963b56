/** Failure-compatible wrappers shared by every module of the model. */
module Wrappers {

  /** A value that may be missing: the model's stand-in for `nullptr`. */
  datatype Option<+T> = None | Some(value: T) {

    predicate IsFailure() {
      None?
    }

    function PropagateFailure<U>(): Option<U>
      requires None?
    {
      None
    }

    function Extract(): T
      requires Some?
    {
      value
    }
  }
}
