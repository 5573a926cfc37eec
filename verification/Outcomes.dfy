/** Results of library calls. */
module Outcomes {
  datatype Status =
    | Ok | IoError | FormatError | Unsupported | UnsafeName | Duplicate | NotFound | Exists
    | NoMemory | LimitError | InvalidArgument
  {
    /** What a failed call of the system is reported as. */
    predicate Fault() { this in {IoError, NoMemory, UnsafeName} }
  }

  /** Either a value or the status of a call that failed. */
  datatype Result<+T> = Success(value: T) | Failure(status: Status) {
    predicate IsFailure() { Failure? }

    function PropagateFailure<U>(): Result<U>
      requires Failure?
    {
      Failure(status)
    }

    function Extract(): T
      requires Success?
    {
      value
    }
  }
}
