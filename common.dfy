/** Shared value types: optional values, results, the outcome of a subprocess
    and the boxed error of the tool's fallible functions. */
module Common {

  datatype Option<+T> = None | Some(value: T) {
    function GetOr(default: T): T {
      match this
      case Some(v) => v
      case None => default
    }
  }

  datatype Result<+T, +E> = Ok(value: T) | Err(error: E)

  /** What a spawned command hands back: either it could not be spawned at
      all, or it ran and exited with an optional status code (absent when a
      signal ended it) and the captured output streams. */
  datatype ProcessOutput =
    | SpawnFailed(reason: string)
    | Exited(code: Option<int>, stdout: string, stderr: string)
  {
    /** `ExitStatus::success()`: the process ran and exited with code 0. */
    predicate Succeeded() {
      Exited? && code == Some(0)
    }
  }

  datatype IoError = ReadFailed | WriteFailed

  /** The boxed `dyn Error` of the tool: an I/O error, a spawn error or a
      message built from a string. */
  datatype Error =
    | IoFailure(io: IoError)
    | SpawnFailure(reason: string)
    | Failed(message: string)
}
