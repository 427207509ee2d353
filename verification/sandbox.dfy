/**
 * The records the snippet runners exchange with their collaborators: the
 * fake Seam API instance, the request handed to the container runner, the
 * captured output streams and the outcome returned to the caller.
 */
module Sandbox {

  datatype Option<T> = None | Some(value: T)

  /** A running fake Seam API: where it listens and the seeded API key. */
  datatype Backend = Backend(serverUrl: string, apiKey: string)

  /**
   * The argument of `runInsideContainer`: the command to run, the image, the
   * files to stage (path to content) and, when given, the `pullImage` flag.
   */
  datatype SandboxRequest = SandboxRequest(
    command: string,
    imageName: string,
    filesystem: map<string, string>,
    pullImage: Option<bool>)

  /** What `runInsideContainer` resolves to: the raw output streams. */
  datatype SandboxResult = SandboxResult(stdout: string, stderr: string)

  /** What a runner returns: `execution_result` (null is None) and `logged_content`. */
  datatype ExecutionOutcome = ExecutionOutcome(executionResult: Option<string>, loggedContent: seq<string>)

  /** Both runners launch the staged script at this path. */
  const LauncherPath := "/root/run.sh"

  /** A JavaScript string is truthy exactly when it is not empty. */
  predicate Truthy(s: string) {
    s != []
  }

  /** The `logged_content` entry for a non-empty stderr: the template `Error: ${stderr}`. */
  function ErrorEntry(stderr: string): string {
    "Error: " + stderr
  }
}
