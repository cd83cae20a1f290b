/**
  Failure-carrying datatypes shared by the host model.

  The host program reports every failure by printing a message and ending the
  process (or by throwing, for a duplicate slot). The model turns each of
  those exits into an `Error` value so that callers and lemmas can see which
  check fired.
 */
module Results {

  datatype Option<+T> = None | Some(value: T)

  /** The reasons the host program stops early. */
  datatype Error =
    | DuplicateSlot(slot: int)              // "Argument %i already present"
    | CapabilityRejected                    // "Capability Error: Check returned false"
    | ImageLoadFailed                       // "Error in loading the image"
    | UnsupportedChannels(channels: int)    // "Unsupported channel size %i"
    | UnsupportedKernelSize(length: nat)    // "Unsupported kernel size: %zu"
    | InvalidInput                          // wrong number of command-line arguments

  datatype Result<+T> = Success(value: T) | Failure(error: Error) {
    predicate IsFailure() { Failure? }

    function PropagateFailure<U>(): Result<U>
      requires Failure?
    {
      Failure(error)
    }

    function Extract(): T
      requires Success?
    {
      value
    }
  }
}
