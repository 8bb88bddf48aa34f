/** The one abnormal outcome of the engine: the compression transform's
    `assert_eq!(block.len(), 64)` failing, which aborts the program. */
module Results {

  /** Why a computation aborted. */
  datatype Failure =
    /** The transform was handed a block of `length` bytes instead of 64. */
    BlockLengthMismatch(length: nat)

  /** Either a value or the failure that aborted its computation;
      usable with `:-`. */
  datatype Result<+T> = Ok(value: T) | Err(failure: Failure) {

    predicate IsFailure() {
      Err?
    }

    function PropagateFailure<U>(): Result<U>
      requires Err?
    {
      Err(failure)
    }

    function Extract(): T
      requires Ok?
    {
      value
    }
  }
}
