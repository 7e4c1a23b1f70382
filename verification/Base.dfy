/** Shared vocabulary: optional values, results and the errors a job can end with. */
module Base {

  datatype Option<+T> = None | Some(value: T)

  newtype byte = b: int | 0 <= b < 0x100

  type Bytes = seq<byte>

  /** What a backend call or a job fails with. `Io` is the only error the
      environment may raise at will; every other backend error is decided by
      the tree the call meets. `ThroughSymlink` marks an open that would follow a
      symlink, which the tree model does not do; `Busy` is removing the root.
      `NeverReturns` is no error of the program: it marks a call that never comes
      back, so whatever holds on that outcome holds for as long as the call hangs. */
  datatype Error =
    | NotFound
    | NotADirectory
    | IsADirectory
    | AlreadyExists
    | NotEmpty
    | ThroughSymlink
    | Busy
    | Unsupported
    | Io
    | Cancelled
    | NeverReturns
  {
    /** A backend call fails with it. */
    predicate FromBackend() {
      this != Cancelled && this != NeverReturns
    }
  }

  datatype Result<+T> = Ok(value: T) | Err(error: Error) {
    predicate IsFailure() {
      Err?
    }

    function PropagateFailure<U>(): Result<U>
      requires Err?
    {
      Err(error)
    }

    function Extract(): T
      requires Ok?
    {
      value
    }
  }

  /** Whether the environment makes a call fail. */
  method Fault(possible: bool) returns (b: bool)
    ensures b ==> possible
  {
    b := *;
    b := b && possible;
  }
}
