/** Operations submitted to the ring and the completions it delivers. */
module Completions {
  import opened Outcomes

  datatype OperationType = NONE | RECV | SEND | READ | WRITE | SIGNAL | TIMEOUT

  /** "No buffer space available", the error that ends a buffer-selecting operation. */
  const ENOBUFS: int := 105

  /** A completion: `result` is a byte count, or a negated error number. */
  datatype Cqe = Cqe(op: OperationType, result: int, bid: Option<nat>, more: bool) {
    predicate IsOk() {
      result >= 0
    }

    function Error(): int {
      if IsOk() then 0 else -result
    }

    /** The completion of an operation that found no buffer to fill. */
    predicate IsNoBuffers() {
      !IsOk() && Error() == ENOBUFS && !more
    }
  }
}
