/** Failure-compatible result types shared by the write and read paths. */
module Outcomes {

  /** A value that may be absent. */
  datatype Option<+T> = None | Some(value: T)

  /** The outcome of one step of file I/O inside the native peer: either it
      completes with a value, or a java.io exception escapes the peer. */
  datatype Result<+T> = Ok(value: T) | Fault {

    predicate IsFailure() {
      Fault?
    }

    function PropagateFailure<U>(): Result<U>
      requires Fault?
    {
      Fault
    }

    function Extract(): T
      requires Ok?
    {
      value
    }
  }

  /** What the simulated program sees when it calls a native peer method:
      - Returned: the peer returned `ret`, and `value` is the observable result
        (the new file record for a write, the destination buffer for a read);
      - Thrown: the peer raised IndexOutOfBoundsException in the simulated
        program (it then returns -1, which the caller never sees);
      - Crashed: an exception escaped from java.io inside the peer itself. */
  datatype Outcome<+T> = Returned(ret: int, value: T) | Thrown | Crashed

  function Min(a: int, b: int): int {
    if a <= b then a else b
  }

  function Max(a: int, b: int): int {
    if a <= b then b else a
  }
}
