/** What a command is to the engine: a function from its arguments and the name of
    its input file to its output and an optional error (CommandFunc, cmdtest.go:144-148),
    the errors such a function returns, the exit code the engine can read from them
    (extractExitCode, cmdtest.go:539-557), and the pure parts of the built-in commands
    (cmdtest.go:746-846). */
module Commands {
  import opened Wrappers
  import opened Text

  /** One error in the chain that errors.As walks, outermost first. */
  datatype ErrorLink =
    | Errno(errno: int)                    // syscall.Errno, e.g. from a failed chdir or mkdir
    | ExitError(exitCode: int)             // *exec.ExitError of a program that exited
    | ExitCodeErr(msg: string, code: int)  // *ExitCodeErr, for commands with no OS-level code
    | Message(msg: string)                 // any other error, including the wrappers around these

  /** A non-nil Go error, as its chain of wrapped errors. */
  type Error = seq<ErrorLink>

  /** What a command returns; err == None is Go's nil error. */
  datatype CmdResult = CmdResult(out: string, err: Option<Error>)

  type CommandFunc = (seq<string>, string) -> CmdResult

  /** TestSuite.Commands: the command name is looked up here. */
  type Registry = map<string, CommandFunc>

  function Failure(msg: string): CmdResult {
    CmdResult([], Some([Message(msg)]))
  }

  // ----- exit codes -----

  datatype LinkKind = ErrnoKind | ExitErrorKind | ExitCodeErrKind

  predicate IsKind(l: ErrorLink, k: LinkKind) {
    match k
    case ErrnoKind => l.Errno?
    case ExitErrorKind => l.ExitError?
    case ExitCodeErrKind => l.ExitCodeErr?
  }

  /** errors.As: the position of the first link of kind k, or |err|. */
  function FindKind(err: Error, k: LinkKind): (i: nat)
    ensures i <= |err|
    ensures forall m | 0 <= m < i :: !IsKind(err[m], k)
    ensures i < |err| ==> IsKind(err[i], k)
  {
    if |err| == 0 || IsKind(err[0], k) then 0 else 1 + FindKind(err[1..], k)
  }

  function CodeOf(l: ErrorLink): int {
    match l
    case Errno(n) => n
    case ExitError(c) => c
    case ExitCodeErr(_, c) => c
    case Message(_) => 0
  }

  /** The code of the first link of kind k in err, if there is one. */
  ghost predicate FirstOfKindHasCode(err: Error, k: LinkKind, c: int) {
    exists i | 0 <= i < |err| :: IsKind(err[i], k) && CodeOf(err[i]) == c && forall m | 0 <= m < i :: !IsKind(err[m], k)
  }

  /** extractExitCode: an errno anywhere in the chain wins, then a process exit
      status, then an ExitCodeErr; a chain of plain messages has no code. */
  function ExtractExitCode(err: Error): (r: Option<int>)
    ensures r.None? <==> forall i | 0 <= i < |err| :: err[i].Message?
    ensures (exists i | 0 <= i < |err| :: err[i].Errno?) ==>
      r.Some? && FirstOfKindHasCode(err, ErrnoKind, r.value)
    ensures (forall i | 0 <= i < |err| :: !err[i].Errno?) && (exists i | 0 <= i < |err| :: err[i].ExitError?) ==>
      r.Some? && FirstOfKindHasCode(err, ExitErrorKind, r.value)
    ensures (forall i | 0 <= i < |err| :: !err[i].Errno? && !err[i].ExitError?) && (exists i | 0 <= i < |err| :: err[i].ExitCodeErr?) ==>
      r.Some? && FirstOfKindHasCode(err, ExitCodeErrKind, r.value)
  {
    var a := FindKind(err, ErrnoKind);
    if a < |err| then Some(CodeOf(err[a]))
    else
      var b := FindKind(err, ExitErrorKind);
      if b < |err| then Some(CodeOf(err[b]))
      else
        var c := FindKind(err, ExitCodeErrKind);
        if c < |err| then Some(CodeOf(err[c])) else None
  }

  // ----- built-in commands, without their effects on the file system -----

  /** checkPath: file and directory arguments must name an entry of the current directory. */
  function CheckPath(path: string): (r: Option<Error>)
    ensures r.None? <==> '/' !in path && '\\' !in path
  {
    if '/' in path || '\\' in path then Some([Message("argument must be in the current directory")])
    else None
  }

  /** fixedArgBuiltin: a built-in that takes exactly nargs arguments and no input file. */
  function FixedArgBuiltin(nargs: nat, f: seq<string> -> CmdResult): CommandFunc {
    (args: seq<string>, infile: string) => FixedArgCall(nargs, f, args, infile)
  }

  /** A call of a built-in made by fixedArgBuiltin: f runs only on exactly nargs
      arguments and without an input file; otherwise the call fails with no output. */
  function FixedArgCall(nargs: nat, f: seq<string> -> CmdResult, args: seq<string>, infile: string): (r: CmdResult)
    ensures |args| == nargs && infile == "" ==> r == f(args)
    ensures |args| != nargs || infile != "" ==> r.err.Some? && r.out == []
  {
    if |args| != nargs then Failure("need exactly " + Itoa(nargs) + " arguments")
    else if infile != "" then Failure("input redirection not supported")
    else f(args)
  }

  /** The text echo prints and fecho writes: the arguments joined by one space, each
      two-character sequence backslash-n turned into a newline, and a final newline. */
  function EchoText(args: seq<string>): string {
    Replace(Join(args, " "), "\\n", "\n") + "\n"
  }

  /** backslash-n occurs at i. */
  lemma EscapeAt(x: string, i: int)
    ensures OccursAt(x, "\\n", i) <==> 0 <= i && i + 1 < |x| && x[i] == '\\' && x[i + 1] == 'n'
  {
    if 0 <= i && i + 1 < |x| {
      assert x[i..i + 2][0] == x[i] && x[i..i + 2][1] == x[i + 1];
      if x[i] == '\\' && x[i + 1] == 'n' {
        assert x[i..i + 2] == "\\n";
      }
    }
  }

  /** Echo's text ends in a newline and holds no backslash-n: every one became a newline. */
  lemma EchoTextProperties(args: seq<string>)
    ensures var r := EchoText(args); |r| > 0 && r[|r| - 1] == '\n'
    ensures !Contains(EchoText(args), "\\n")
  {
    var s := Replace(Join(args, " "), "\\n", "\n");
    var x := s + "\n";
    NoEscapeLeft(Join(args, " "));
    if Contains(x, "\\n") {
      var i :| 0 <= i <= |x| - 2 && OccursAt(x, "\\n", i);
      EscapeAt(x, i);
      EscapeAt(s, i);
      assert false;
    }
  }

  /** No backslash-n is left after replacing each of them with a newline. */
  lemma NoEscapeLeft(s: string)
    ensures !Contains(Replace(s, "\\n", "\n"), "\\n")
  {
    assert forall k | 0 <= k < 2 :: "\\n"[k] !in "\n";
    ReplaceLeavesNone(s, "\\n", "\n");
  }

  /** echoCmd */
  function EchoCmd(args: seq<string>, inputFile: string): (r: CmdResult)
    ensures r.err.None? <==> inputFile == ""
    ensures r.err.None? ==> r.out == EchoText(args)
  {
    if inputFile != "" then Failure("input redirection not supported")
    else CmdResult(EchoText(args), None)
  }

  /** What fechoCmd does: refuse, or write a file of the current directory. */
  datatype FechoOutcome = Refused(err: Error) | FileWrite(path: string, content: string)

  /** fechoCmd, up to the call of ioutil.WriteFile, which is not part of this model. */
  function FechoCmd(args: seq<string>, inputFile: string): (r: FechoOutcome)
    ensures r.FileWrite? <==> |args| >= 1 && inputFile == "" && '/' !in args[0] && '\\' !in args[0]
    ensures r.FileWrite? ==> r.path == args[0] && r.content == EchoText(args[1..])
  {
    if |args| < 1 then Refused([Message("need at least 1 argument")])
    else if inputFile != "" then Refused([Message("input redirection not supported")])
    else match CheckPath(args[0])
      case Some(e) => Refused(e)
      case None => FileWrite(args[0], EchoText(args[1..]))
  }

  /** The echo entry of the built-in registry. */
  function Echo(): CommandFunc {
    (args: seq<string>, inputFile: string) => EchoCmd(args, inputFile)
  }
}
