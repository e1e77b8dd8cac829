/** Failure-compatible Option type used for Python operations that may raise. */
module Wrappers {

  /** `None` stands for "this step raised"; `Some(v)` for a normal result `v`. */
  datatype Option<+T> = None | Some(value: T) {

    predicate IsFailure() {
      None?
    }

    function PropagateFailure<U>(): Option<U>
      requires None?
    {
      None
    }

    function Extract(): T
      requires Some?
    {
      value
    }
  }
}
