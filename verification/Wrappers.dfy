/** The usual option type, and what a reader hands back. */
module Wrappers {
  datatype Option<+T> = None | Some(value: T) {
    predicate IsFailure() { None? }
    function PropagateFailure<U>(): Option<U>
      requires None?
    {
      None
    }
    function Extract(): T
      requires Some?
    {
      value
    }
  }

  /** A value read, and where to read on. */
  datatype Read<+T> = Read(value: T, next: nat)
}
