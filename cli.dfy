/**
 * The entry point of extract-als-cal.py: choosing the input and output paths
 * from the argument vector, and the outcome of one run with its exit status.
 * Parsing the XML file and writing the output file are not modelled: the
 * parsed tree of the input file is a parameter and the write is an outcome.
 */
module Cli {
  import opened Wrappers
  import opened Plist
  import opened Extract

  /** The output file used when no second argument is given. */
  const DefaultOutput: string := "aop-als-cal.bin"

  datatype Paths = Paths(input: string, output: string)

  /**
   * The paths named by `argv` (whose entry 0 is the program name): None, the
   * usage error, when the input path is missing.
   */
  function SelectPaths(argv: seq<string>): (r: Option<Paths>)
    ensures r.None? <==> |argv| < 2
    ensures r.Some? ==> r.value.input == argv[1]
    ensures r.Some? ==> r.value.output == (if |argv| > 2 then argv[2] else DefaultOutput)
  {
    if |argv| < 2 then None
    else Some(Paths(argv[1], if |argv| > 2 then argv[2] else DefaultOutput))
  }

  /** Arguments after the output path do not change the choice. */
  lemma ExtraArgumentsIgnored(argv: seq<string>, extra: seq<string>)
    requires |argv| >= 3
    ensures SelectPaths(argv + extra) == SelectPaths(argv)
  {
    assert (argv + extra)[1] == argv[1] && (argv + extra)[2] == argv[2];
  }

  /** How one run ends. */
  datatype Outcome =
    | UsageError                          // no input path: usage message, exit 1
    | NotFound                            // no sensor node: diagnostic, exit 1
    | Written(path: string, data: Bytes)  // the calibration bytes written to `path`, exit 0
    | Crashed(failure: Failure)           // an uncaught decoding error

  /**
   * One run on `argv`, where `tree` is the parsed content of the input file
   * `argv[1]`.
   */
  function Run(argv: seq<string>, tree: Elem): (r: Outcome)
    ensures r == UsageError <==> |argv| < 2
    ensures r == NotFound <==> |argv| >= 2 && Find(tree) == Ok(None)
    ensures r.Crashed? <==> |argv| >= 2 && Find(tree).Err?
    ensures r.Written? ==> |r.data| > 0 && r.path == (if |argv| > 2 then argv[2] else DefaultOutput)
  {
    match SelectPaths(argv)
    case None => UsageError
    case Some(paths) =>
      match Find(tree)
      case Err(f) => Crashed(f)
      case Ok(None) => NotFound
      case Ok(Some(cal)) => Written(paths.output, cal)
  }

  /** The process exit status; Python ends with status 1 on an uncaught exception. */
  function ExitStatus(o: Outcome): (code: nat)
    ensures code == 0 <==> o.Written?
    ensures code <= 1
  {
    if o.Written? then 0 else 1
  }

  /** A missing input path is reported before any input is looked at. */
  lemma UsageErrorIgnoresInput(argv: seq<string>, t1: Elem, t2: Elem)
    requires |argv| < 2
    ensures Run(argv, t1) == UsageError && Run(argv, t2) == UsageError
  {
  }

  /**
   * A run succeeds exactly when the input path is given and the search finds
   * bytes; it then writes those bytes, never empty, to the chosen output path.
   */
  lemma RunSucceedsIff(argv: seq<string>, tree: Elem)
    ensures ExitStatus(Run(argv, tree)) == 0 <==> |argv| >= 2 && Find(tree).Ok? && Find(tree).value.Some?
    ensures Run(argv, tree).Written? ==>
              && Find(tree) == Ok(Some(Run(argv, tree).data))
              && |Run(argv, tree).data| > 0
              && Run(argv, tree).path == (if |argv| > 2 then argv[2] else DefaultOutput)
  {
  }
}
