/**
 * The world outside the pipeline, as the pipeline sees it: the bytes of the
 * files it reads, the external commands it launches, and the two oracles it
 * relies on (the SHA-1 digest of a byte string, and the operating system
 * running a command to completion).
 */
module Env {
  import opened Results

  newtype byte = x: int | 0 <= x < 256

  type Bytes = seq<byte>

  type Path = string

  /** An operating-system error, as `std::io::Error` reports one. */
  datatype OsError = NotFound | PermissionDenied | Other(code: int)

  /** What reading a present file in full yields. */
  datatype FileState = Contents(bytes: Bytes) | Unreadable(error: OsError)

  /** The working tree: a path that is not in the map does not exist. */
  type FileSystem = map<Path, FileState>

  /** Opening `p` and reading it to the end. */
  function ReadToEnd(fs: FileSystem, p: Path): Result<Bytes, OsError>
  {
    if p !in fs then Err(NotFound)
    else match fs[p]
      case Contents(bytes) => Ok(bytes)
      case Unreadable(e) => Err(e)
  }

  /** An external program and its argument list. */
  datatype Cmd = Cmd(program: string, args: seq<string>)

  /** How a child process ended: with an exit code, or killed by a signal. */
  datatype ExitStatus = Exited(code: int) | Signaled(signal: int)

  /** `ExitStatus::success`: the child exited with code 0. */
  predicate Success(s: ExitStatus)
  {
    s.Exited? && s.code == 0
  }

  /** What spawning a child and waiting for it reports. */
  datatype ChildOutcome =
    | SpawnFailed(error: OsError)
    | WaitFailed(error: OsError)
    | Terminated(status: ExitStatus)

  /** The report of one command run, and the file system it leaves behind. */
  datatype Effect = Effect(child: ChildOutcome, after: FileSystem)

  /** A hex-encoded content digest. */
  type Digest = string

  /**
   * The oracles: `sha1` is the digest of a byte string (deterministic, and
   * otherwise unknown; nothing here assumes it is collision-free), and `exec`
   * runs a command against the current file system.
   */
  datatype System = System(sha1: Bytes -> Digest, exec: (Cmd, FileSystem) -> Effect)
}
