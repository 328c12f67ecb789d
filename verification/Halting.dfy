/**
 The kernel's error() prints a message and spins for ever. An operation that
 reaches it returns Halt with the call site; a caller that gets Halt stops too.
 */
module Halting {

  datatype Fault =
    | NoFreePage | AllPagesReturned | InvalidCount | TooFewPages
    | PageAlreadyGiven | AddressNotValid
    | BlockPastDisk | NoBuffers | LogFull
    | DescriptorOutOfRange | DescriptorAlreadyFree | DiskStatus
    | NoProcessToRun | ProcessTableFilled | LoadingFailed
    // Not a call of error(): the C program has no defined behaviour from here.
    | Undefined

  datatype Result<+T> = Ok(value: T) | Halt(fault: Fault) {
    predicate IsFailure() {
      Halt?
    }

    function PropagateFailure<U>(): Result<U>
      requires Halt?
    {
      Halt(fault)
    }

    function Extract(): T
      requires Ok?
    {
      value
    }
  }

  datatype Option<+T> = None | Some(value: T)
}
