/**
 * The error context of the command-line checks (src/error.rs): the module an
 * error comes from, the process exit code per module, and the text an
 * `ErrorContext` displays.
 */
module Error {

  /** The part of the program an error is attributed to. */
  datatype Module = CliArgsValidation | ConfigFileAnalysis

  /** The process exit code for an error of module `m`. */
  function ExitCode(m: Module): (code: int)
    ensures code != 0
    ensures code == 1 <==> m == CliArgsValidation
    ensures code == 2 <==> m == ConfigFileAnalysis
  {
    match m
    case CliArgsValidation => 1
    case ConfigFileAnalysis => 2
  }

  /** Distinct modules exit with distinct codes, so a caller can tell them apart. */
  lemma ExitCodeInjective(a: Module, b: Module)
    ensures ExitCode(a) == ExitCode(b) ==> a == b
  {
  }

  /** A message together with the module that raised it. */
  datatype ErrorContext = ErrorContext(message: string, errorModule: Module)

  /** `Display for ErrorContext`: the text shown for an error context. */
  function Display(e: ErrorContext): (text: string)
  {
    e.message
  }

  /** The displayed text is exactly the message; the module is not shown. */
  lemma DisplayIsMessage(message: string, a: Module, b: Module)
    ensures Display(ErrorContext(message, a)) == message
    ensures Display(ErrorContext(message, a)) == Display(ErrorContext(message, b))
  {
  }
}
