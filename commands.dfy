/** Running an external command and classifying how it ended. */
module Commands {
  import opened Results
  import opened Env

  /**
   * Why a command, or a manifest update, failed. The conversion the `?`
   * operator applies to an operating-system error is the `IoError` constructor.
   */
  datatype CommandError =
    | IoError(cause: OsError)   // a file could not be read, or a process could not be spawned or waited for
    | RunError                  // the process ran and did not exit successfully

  /**
   * `Cmd::run`, given what spawning and waiting reported: success only for a
   * successful exit status, `RunError` for any other status, and `IoError`
   * carrying the operating-system error when the spawn or the wait failed.
   */
  function Run(child: ChildOutcome): (r: Result<(), CommandError>)
    ensures r.Ok? <==> child.Terminated? && Success(child.status)
    ensures r == Err(RunError) <==> child.Terminated? && !Success(child.status)
    ensures child.SpawnFailed? || child.WaitFailed? ==> r == Err(IoError(child.error))
  {
    match child
    case SpawnFailed(e) => Err(IoError(e))
    case WaitFailed(e) => Err(IoError(e))
    case Terminated(status) => if Success(status) then Ok(()) else Err(RunError)
  }
}
