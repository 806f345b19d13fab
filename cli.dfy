/** The command-line entry point of gncli.py: `gncli.py <type> <command> <connection string>`,
    of which only `book new` does anything: open a new book and save it. Printed lines and
    the exit status are the result; the two backend calls are outcomes supplied by the caller. */
module Cli {
  import opened Errors
  import opened Session
  import opened Flags

  /** The process's end: printed lines and exit status, or an uncaught Python exception. */
  datatype Run = Exit(output: seq<string>, status: int) | Crash(exception: string)

  const Usage := "Usage: gncli.py <type> <command> <file or connection string>"

  /** How a failure raised by start_session or end_session ends the process: the CLI prints
      the Error's message and exits with status 2; anything else escapes. */
  function RunOfFailure(f: Raised): (run: Run)
    ensures run.Exit? <==> f.AppError?
    ensures run.Exit? ==> run == Exit([f.error.message], 2)
    ensures f.Uncaught? ==> run == Crash(f.exception)
  {
    match f
    case AppError(e) => Exit([e.message], 2)
    case Uncaught(x) => Crash(x)
  }

  /** The script's main block, run in a fresh process (no session open). */
  method RunCli(argv: seq<string>, open: BackendOutcome, save: BackendOutcome) returns (run: Run)
    ensures |argv| == 0 ==> run == Exit([Usage], 2)
    ensures 0 < |argv| < 3 ==> run == Crash("IndexError")
    ensures |argv| >= 3 && argv[0] != "book" ==> run == Exit(["Type not found"], 0)
    ensures |argv| >= 3 && argv[0] == "book" && argv[1] != "new" ==> run == Exit(["Command not found"], 0)
    ensures |argv| >= 3 && argv[0] == "book" && argv[1] == "new" && argv[2] == "" ==>
      run == Exit(["A connection string must be supplied"], 2)
    ensures |argv| >= 3 && argv[0] == "book" && argv[1] == "new" && argv[2] != "" ==>
      run == match open
        case Fails(m) => RunOfFailure(BackendFailure(StartFailedMessage, m))
        case Succeeds =>
          match save
          case Fails(m) => RunOfFailure(BackendFailure(SaveFailedMessage, m))
          case Succeeds => Exit(["New book created"], 0)
  {
    if |argv| == 0 {
      return Exit([Usage], 2);
    }
    if |argv| < 3 {
      return Crash("IndexError");
    }
    var kind, command, connectionString := argv[0], argv[1], argv[2];
    if kind != "book" {
      return Exit(["Type not found"], 0);
    }
    if command != "new" {
      return Exit(["Command not found"], 0);
    }
    var globals := new Gncli();
    ParseFlagOfBool(true);
    ParseFlagOfBool(false);
    var started := globals.StartSession(connectionString, Bool(true), Bool(false), open);
    if started.Err? {
      return RunOfFailure(started.error);
    }
    var ended := globals.EndSession(save);
    if ended.Err? {
      return RunOfFailure(ended.error);
    }
    return Exit(["New book created"], 0);
  }
}
