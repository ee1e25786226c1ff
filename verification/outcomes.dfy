/** Failure-compatible result types shared by every stage of the patch engine.

    The original program has no error values: an out-of-range span access
    throws, a missing file calls the process exit, and an unbounded recursion
    overflows the stack. Each of those becomes one `Fault` here, so that a
    model function returns `Err` exactly where the program would stop. */
module Outcomes {

  /** Why a replacement stops.
      - OutOfRange: a span slice or index outside the buffer (the program throws)
      - TooLarge: a spliced buffer that no longer fits a span (length >= 2^31)
      - NotFound: the directory search returned its 0 sentinel
      - DepthExhausted: the directory recursion went deeper than the fuel allows */
  datatype Fault = OutOfRange | TooLarge | NotFound | DepthExhausted

  datatype Option<+T> = None | Some(value: T)

  datatype Result<+T> = Ok(value: T) | Err(fault: Fault) {

    predicate IsFailure() {
      Err?
    }

    function PropagateFailure<U>(): Result<U>
      requires Err?
    {
      Err(fault)
    }

    function Extract(): T
      requires Ok?
    {
      value
    }
  }
}
