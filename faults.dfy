/** Outcomes of the maze engine's operations.  Each Java exception the core
    throws becomes a `Fault`; a call that returns normally is `Pass` or `Ok`. */
module Faults {

  datatype Fault =
    | IllegalArgument
    | IllegalState
    | UnsupportedOperation
    | IndexOutOfBounds
    /** Movement or shooting against a wall: the turn is forfeited, the game goes on. */
    | Recoverable
    /** The player died; the message is the exception's text. */
    | PlayerKilled(message: string)
    /** A creature list was re-sorted while an outer loop was still iterating over it. */
    | ConcurrentModification
    /** The supplied random stream has no draw left for a `nextInt` call. */
    | DrawsExhausted
    /** A recursive traversal went deeper than its stack budget. */
    | StackOverflow

  datatype Outcome = Pass | Fail(fault: Fault)

  datatype Result<T> = Ok(value: T) | Err(fault: Fault) {
    predicate IsFailure() { Err? }
    function PropagateFailure<U>(): Result<U>
      requires Err?
    {
      Err(fault)
    }
    function Extract(): T
      requires Ok?
    {
      value
    }
  }

  datatype Option<T> = None | Some(value: T)
}
