/** main of the drop tool: argument interpretation, then the engine-call sequence. */
module DropTool {
  import opened DropArgs
  import opened DropLifecycle

  /**
   * The whole of main. usage() and -V end the process before any engine
   * call; a run makes exactly the calls of Transcript and returns ExitStatus.
   * The process succeeds exactly for -V or for a run whose every checked
   * engine step returned 0.
   */
  method ToolMain(argv: seq<string>, rc: Engine) returns (status: int, trace: seq<Call>)
    ensures Parse(argv) == Usage ==> status == EXIT_FAILURE && trace == []
    ensures Parse(argv) == Version ==> status == EXIT_SUCCESS && trace == []
    ensures Parse(argv).Run? ==>
              status == ExitStatus(Parse(argv).cfg, rc) && trace == Transcript(Parse(argv).cfg, rc)
    ensures status == EXIT_SUCCESS <==>
              Parse(argv) == Version || (Parse(argv).Run? && AllPass(Plan(Parse(argv).cfg), rc))
    ensures trace != [] <==> Parse(argv).Run?
  {
    var o := ParseArgs(argv);
    match o {
      case Usage =>
        status, trace := EXIT_FAILURE, [];
      case Version =>
        status, trace := EXIT_SUCCESS, [];
      case Run(cfg) =>
        status, trace := Execute(cfg, rc);
        ExitReflectsEveryStep(cfg, rc);
        StepAttemptedOnce(cfg, rc, 0);
    }
  }
}
