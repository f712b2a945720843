/** What the modelled code learns from running an external command. */
module Process {
  /** The outcome of running a command: it could not be started, or it ran
      and exited with or without success, leaving its stdout and stderr. */
  datatype Outcome = NotStarted(error: string) | Ran(success: bool, stdout: string, stderr: string)

  predicate Succeeded(o: Outcome) {
    o.Ran? && o.success
  }
}
