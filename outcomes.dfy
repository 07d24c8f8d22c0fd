/** Failure-compatible results and the exceptions the decoder pipeline can raise. */
module Outcomes {

  datatype Option<T> = None | Some(value: T)

  /** The exceptions thrown along the decode path; every one aborts the whole call. */
  datatype Error =
    | InvalidLicenceData     // the decoder was given a buffer that is not 720 bytes long
    | InvalidLicenceVersion  // the 4-byte version tag matches neither known tag
    | ReadOutOfBounds        // DataView.getUint8 at an offset past the end of the buffer
    | WriteOutOfBounds       // Uint8Array.set of a block that does not fit in the buffer

  /** Either a value or the exception that aborted the computation. */
  datatype Result<T> = Ok(value: T) | Err(error: Error) {

    predicate IsFailure() {
      Err?
    }

    function PropagateFailure<U>(): Result<U>
      requires Err?
    {
      Err(error)
    }

    function Extract(): T
      requires Ok?
    {
      value
    }
  }
}
