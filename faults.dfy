/** Failures of the matrix builder. The source reports every one of them by
    throwing a WriterException (or, for a buffer size mismatch, an argument
    exception from the bit buffer); here they are values. */
module Faults {

  datatype Fault =
    | InvalidMaskPattern              // MakeTypeInfoBits: mask id outside 0..7
    | CellNotEmpty                    // a stamp found a target cell already set
    | InvalidCellValue                // a timing cell holds neither -1, 0 nor 1
    | DarkDotOnLight                  // the dark-dot cell was already light
    | NotAllBitsConsumed(consumed: nat, size: nat)
    | SizesDiffer                     // bit buffers of different length XORed
    | UnexpectedSize(size: nat)       // the final length check of a BCH word

  datatype Result<T> = Ok(value: T) | Err(fault: Fault)
  {
    predicate IsFailure()
    {
      Err?
    }

    function PropagateFailure<U>(): Result<U>
      requires Err?
    {
      Err(fault)
    }

    function Extract(): T
      requires Ok?
    {
      value
    }
  }

  /** What a void routine that may throw ends with. */
  datatype Outcome = Success | Failure(fault: Fault)
}
