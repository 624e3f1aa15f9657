/** Types shared by the components. */
module Wrappers {

  type Byte = x: int | 0 <= x < 256

  /** A value that may be missing. */
  datatype Option<+T> = None | Some(value: T) {
    predicate IsFailure() {
      None?
    }

    function PropagateFailure<U>(): Option<U>
      requires None?
    {
      None
    }

    function Extract(): T
      requires Some?
    {
      value
    }
  }
}
