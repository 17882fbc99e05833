/** Error values and failure-carrying results shared by the recovery model. */
module Common {

  /** Every error the recovery manager or one of its collaborators can report. */
  datatype Error =
    // storage engine (db handlers)
    | TableExists        // create of a table whose name is taken
    | NoSuchTable        // insert/update/delete on a table that does not exist
    | DuplicateKey       // insert of a key that is already present
    | NoSuchKey          // update/delete of a key that is absent
    // transaction manager
    | AlreadyBegun       // Begin of an id the manager already runs
    | NotRunning         // Commit of an id the manager does not run
    // recovery manager
    | CannotRedo         // "can only redo edit logs"
    | CannotUndo         // "can only undo edit logs"
    | UnexpectedCheckpoint  // "checkpoint log not expected after checkpointPos"
    | NoLogs             // "transaction has no logs"
    | AlreadyCommitted   // "transaction already commited"

  datatype Option<+T> = None | Some(value: T)

  datatype Result<+T> = Ok(value: T) | Err(error: Error)

  /** How a multi-step pass ended: with all steps done, or aborted at a step.
      Either way it carries the state reached, since the steps already taken
      are not rolled back. */
  datatype Outcome<+S> = Done(st: S) | Failed(st: S, err: Error)

  /** The error an outcome reports, if any. */
  function ErrorOf<S>(o: Outcome<S>): Option<Error>
  {
    if o.Failed? then Some(o.err) else None
  }
}
