/** The Option type used for results that may be missing (a null pointer in the
    source) and for computations that the source performs only when an assertion
    holds and no memory outside the buffer is touched. */
module Wrappers {

  datatype Option<+T> = None | Some(value: T) {

    predicate IsFailure() {
      None?
    }

    function PropagateFailure<U>(): Option<U>
      requires None?
    {
      None
    }

    function Extract(): T
      requires Some?
    {
      value
    }
  }
}
