/** What running the commands of one test case means (testCase.execute,
    cmdtest.go:458-516, and scrub, cmdtest.go:692-700), as functions of the commands,
    the command registry, the environment and the test's root directory. The
    imperative loop that computes it is TestCase.Execute in module CmdTest. */
module Engine {
  import opened Wrappers
  import opened Text
  import opened CommandLine
  import opened Variables
  import opened Commands
  import opened Format

  /** Why a test case stops. Every error but the first two names the 1-based line of
      the command that caused it. */
  datatype ExecError =
    | BadFailMarker(syntax: SyntaxError)
    | UndefinedVariable(name: string)
    | EmptyCommand(line: int)
    | NoSuchCommand(line: int, name: string)
    | UnexpectedSuccess(line: int, cmd: string)
    | UnexpectedFailure(line: int, cmd: string, err: Error)
    | MissingExitCode(line: int, cmd: string)
    | WrongExitCode(line: int, cmd: string, got: int, want: int)

  /** Expanding the variables of every argument in turn, stopping at the first failure. */
  function ExpandAll(args: seq<string>, env: map<string, string>): (r: Result<seq<string>, string>)
    ensures r.Ok? ==> |r.value| == |args| && forall k | 0 <= k < |args| :: Expand(args[k], env) == Ok(r.value[k])
    ensures r.Ok? <==> forall k | 0 <= k < |args| :: Expand(args[k], env).Ok?
    ensures r.Err? ==> exists k | 0 <= k < |args| ::
      Expand(args[k], env) == Err(r.error) && forall m | 0 <= m < k :: Expand(args[m], env).Ok?
    decreases |args|
  {
    if |args| == 0 then Ok([])
    else
      var last := |args| - 1;
      var prefix := ExpandAll(args[..last], env);
      assert forall k | 0 <= k < last :: args[..last][k] == args[k];
      match prefix
      case Err(e) => Err(e)
      case Ok(xs) =>
        match Expand(args[last], env)
        case Err(e) => Err(e)
        case Ok(x) => Ok(xs + [x])
  }

  /** Once an argument fails to expand, the later ones are never looked at. */
  lemma {:induction false} ExpandAllStops(args: seq<string>, env: map<string, string>, j: nat)
    requires j <= |args| && ExpandAll(args[..j], env).Err?
    ensures ExpandAll(args, env) == ExpandAll(args[..j], env)
    decreases |args| - j
  {
    if j == |args| {
      assert args[..j] == args;
    } else {
      assert args[..j + 1][..j] == args[..j];
      ExpandAllStops(args, env, j + 1);
    }
  }

  /** The arguments and the input file of a command, once "< FILE" is split off. */
  datatype Invocation = Invocation(args: seq<string>, inputFile: string)

  predicate HasRedirect(args: seq<string>) {
    |args| >= 2 && args[|args| - 2] == "<"
  }

  /** "<" as the second-to-last argument makes the last one the input file. */
  function SplitRedirect(args: seq<string>): (r: Invocation)
    ensures HasRedirect(args) ==> r.args + ["<", r.inputFile] == args
    ensures !HasRedirect(args) ==> r == Invocation(args, "")
  {
    if HasRedirect(args) then
      var n := |args|;
      assert args == args[..n - 2] + ["<", args[n - 1]];
      Invocation(args[..n - 2], args[n - 1])
    else Invocation(args, "")
  }

  /** Whether the outcome of a command matches what its line asked for. */
  function Reconcile(line: int, cmd: string, err: Option<Error>, wantFail: bool, wantExitCode: int): (r: Option<ExecError>)
    ensures r.None? <==>
      && (err.Some? <==> wantFail)
      && (err.Some? && wantExitCode != 0 ==> ExtractExitCode(err.value) == Some(wantExitCode))
    ensures err.None? && wantFail ==> r == Some(UnexpectedSuccess(line, cmd))
    ensures err.Some? && !wantFail ==> r == Some(UnexpectedFailure(line, cmd, err.value))
  {
    match err
    case None => if wantFail then Some(UnexpectedSuccess(line, cmd)) else None
    case Some(e) =>
      if !wantFail then Some(UnexpectedFailure(line, cmd, e))
      else if wantExitCode == 0 then None
      else match ExtractExitCode(e)
        case None => Some(MissingExitCode(line, cmd))
        case Some(c) => if c != wantExitCode then Some(WrongExitCode(line, cmd, c, wantExitCode)) else None
  }

  /** The arguments of a command line, with its variables expanded. */
  function Arguments(p: Parsed, env: map<string, string>): Result<seq<string>, ExecError> {
    match ExpandAll(Fields(p.cmd), env)
    case Err(name) => Err(UndefinedVariable(name))
    case Ok(args) => Ok(args)
  }

  /** One command of a case, on the given line: its output, or why the case stops. */
  function RunCommand(cmdline: string, line: int, reg: Registry, env: map<string, string>): Result<string, ExecError>
  {
    match ParseCommand(cmdline)
    case Err(e) => Err(BadFailMarker(e))
    case Ok(p) =>
      match Arguments(p, env)
      case Err(e) => Err(e)
      case Ok(args) => RunArguments(p, args, line, reg)
  }

  /** A command whose line parsed to p and whose expanded arguments are args. */
  function RunArguments(p: Parsed, args: seq<string>, line: int, reg: Registry): Result<string, ExecError> {
    if |args| == 0 then Err(EmptyCommand(line))
    else if args[0] !in reg then Err(NoSuchCommand(line, args[0]))
    else
      var inv := SplitRedirect(args[1..]);
      var res := reg[args[0]](inv.args, inv.inputFile);
      match Reconcile(line, p.cmd, res.err, p.wantFail, p.wantExitCode)
      case Some(e) => Err(e)
      case None => Ok(res.out)
  }

  /** A way to run the command on a given line of a case. */
  type Runner = (string, int) -> Result<string, ExecError>

  /** The runner of the engine, for the registry and variables of a suite. */
  function CommandRunner(reg: Registry, env: map<string, string>): Runner {
    (cmdline: string, line: int) => RunCommand(cmdline, line, reg, env)
  }

  /** run runs each command as RunCommand does. */
  ghost predicate RunsCommands(run: Runner, reg: Registry, env: map<string, string>) {
    forall cmdline, line {:trigger RunCommand(cmdline, line, reg, env)} :: run(cmdline, line) == RunCommand(cmdline, line, reg, env)
  }

  lemma CommandRunnerRuns(reg: Registry, env: map<string, string>)
    ensures RunsCommands(CommandRunner(reg, env), reg, env)
  {
  }

  /** The commands of a case from the i-th on, once the first i have printed out: the
      output of all of them, or the error of the first one that goes wrong. */
  function RunFrom(cmds: seq<string>, startLine: int, run: Runner, i: nat, out: string): Result<string, ExecError>
    requires i <= |cmds|
    decreases |cmds| - i
  {
    if i == |cmds| then Ok(out)
    else match run(cmds[i], startLine + i)
      case Err(e) => Err(e)
      case Ok(o) => RunFrom(cmds, startLine, run, i + 1, out + o)
  }

  /** The run of the commands of a case is that from the i-th on, over the i-th:
      it stops with the i-th command's error, or goes on with its output. */
  lemma RunFromAfter(cmds: seq<string>, startLine: int, run: Runner, i: nat, out: string, x: Result<string, ExecError>)
    requires i < |cmds| && RunFrom(cmds, startLine, run, i, out) == x
    ensures run(cmds[i], startLine + i).Err? ==> x == run(cmds[i], startLine + i)
    ensures run(cmds[i], startLine + i).Ok? ==>
      x == RunFrom(cmds, startLine, run, i + 1, out + run(cmds[i], startLine + i).value)
  {
  }

  /** The commands of a case, the first on line startLine. */
  function RunCommands(cmds: seq<string>, startLine: int, reg: Registry, env: map<string, string>): Result<string, ExecError> {
    RunFrom(cmds, startLine, CommandRunner(reg, env), 0, [])
  }

  /** The commands from the i-th on run through iff each of them succeeds, and
      otherwise stop with the error of the first one that does not; their output
      extends out. */
  lemma {:induction false} RunFromFirstError(cmds: seq<string>, startLine: int, run: Runner, i: nat, out: string)
    requires i <= |cmds|
    ensures RunFrom(cmds, startLine, run, i, out).Ok? <==>
      forall k | i <= k < |cmds| :: run(cmds[k], startLine + k).Ok?
    ensures RunFrom(cmds, startLine, run, i, out).Err? ==> exists k | i <= k < |cmds| ::
      && run(cmds[k], startLine + k) == Err(RunFrom(cmds, startLine, run, i, out).error)
      && forall m | i <= m < k :: run(cmds[m], startLine + m).Ok?
    ensures RunFrom(cmds, startLine, run, i, out).Ok? ==> out <= RunFrom(cmds, startLine, run, i, out).value
    ensures RunFrom(cmds, startLine, run, i, out).Ok? ==>
      RunFrom(cmds, startLine, run, i, out).value == out + Concat(Outputs(cmds, startLine, run, i))
    decreases |cmds| - i
  {
    if i < |cmds| {
      var r := run(cmds[i], startLine + i);
      if r.Ok? {
        RunFromFirstError(cmds, startLine, run, i + 1, out + r.value);
      }
    }
    RunFromOutput(cmds, startLine, run, i, out);
  }

  /** A run through appends the commands' outputs, in order, to out. */
  lemma {:induction false} RunFromOutput(cmds: seq<string>, startLine: int, run: Runner, i: nat, out: string)
    requires i <= |cmds|
    ensures RunFrom(cmds, startLine, run, i, out).Ok? ==>
      RunFrom(cmds, startLine, run, i, out).value == out + Concat(Outputs(cmds, startLine, run, i))
    decreases |cmds| - i
  {
    if i < |cmds| {
      var r := run(cmds[i], startLine + i);
      if r.Ok? {
        assert RunFrom(cmds, startLine, run, i, out) == RunFrom(cmds, startLine, run, i + 1, out + r.value);
        RunFromOutput(cmds, startLine, run, i + 1, out + r.value);
        OutputsStep(cmds, startLine, run, i);
        AppendAssoc(out, r.value, Concat(Outputs(cmds, startLine, run, i + 1)));
      }
    }
  }

  lemma AppendAssoc(a: string, b: string, c: string)
    ensures a + b + c == a + (b + c)
  {
  }

  /** The strings one after the other. */
  function Concat(ss: seq<string>): string {
    if |ss| == 0 then [] else ss[0] + Concat(ss[1..])
  }

  /** The outputs of the commands from the i-th on, each taken as empty if the
      command fails. */
  function Outputs(cmds: seq<string>, startLine: int, run: Runner, i: nat): (r: seq<string>)
    requires i <= |cmds|
  {
    seq(|cmds| - i, k requires 0 <= k < |cmds| - i =>
      match run(cmds[i + k], startLine + i + k)
      case Ok(o) => o
      case Err(_) => [])
  }

  lemma OutputsStep(cmds: seq<string>, startLine: int, run: Runner, i: nat)
    requires i < |cmds| && run(cmds[i], startLine + i).Ok?
    ensures Concat(Outputs(cmds, startLine, run, i)) ==
      run(cmds[i], startLine + i).value + Concat(Outputs(cmds, startLine, run, i + 1))
  {
    var os := Outputs(cmds, startLine, run, i);
    assert os[1..] == Outputs(cmds, startLine, run, i + 1);
  }

  const ScrubbedRootDir: string := "${ROOTDIR}"

  /** scrub: the root directory, followed by the path separator or not, becomes ${ROOTDIR}. */
  function Scrub(rootDir: string, sep: char, b: string): string {
    Replace(Replace(b, rootDir + [sep], ScrubbedRootDir + [sep]), rootDir, ScrubbedRootDir)
  }

  /** Output that never mentions the root directory is left as it is. */
  lemma ScrubWithoutRootDir(rootDir: string, sep: char, b: string)
    requires |rootDir| > 0 && !Contains(b, rootDir)
    ensures Scrub(rootDir, sep, b) == b
  {
    if Contains(b, rootDir + [sep]) {
      var i :| 0 <= i <= |b| - |rootDir + [sep]| && OccursAt(b, rootDir + [sep], i);
      assert b[i..i + |rootDir|] == b[i..i + |rootDir| + 1][..|rootDir|];
      assert OccursAt(b, rootDir, i);
      assert false;
    }
  }

  /** Every occurrence of the root directory is scrubbed: none is left in the result,
      provided no character of the root directory occurs in ${ROOTDIR}. */
  lemma ScrubRemovesRootDir(rootDir: string, sep: char, b: string)
    requires |rootDir| > 0 && forall k | 0 <= k < |rootDir| :: rootDir[k] !in ScrubbedRootDir
    ensures !Contains(Scrub(rootDir, sep, b), rootDir)
  {
    ReplaceLeavesNone(Replace(b, rootDir + [sep], ScrubbedRootDir + [sep]), rootDir, ScrubbedRootDir);
  }

  /** The root directory itself becomes ${ROOTDIR}. */
  lemma ScrubRootDir(rootDir: string, sep: char)
    requires |rootDir| > 0
    ensures Scrub(rootDir, sep, rootDir) == ScrubbedRootDir
  {
    assert Replace(rootDir, rootDir + [sep], ScrubbedRootDir + [sep]) == rootDir;
    assert rootDir[..|rootDir|] == rootDir && rootDir[|rootDir|..] == [];
    assert Replace(rootDir, rootDir, ScrubbedRootDir) == ScrubbedRootDir + Replace([], rootDir, ScrubbedRootDir);
  }

  /** A path below the root directory is written relative to ${ROOTDIR}, when the
      root directory shares no character with "${ROOTDIR}" and is not named again
      further on. */
  lemma ScrubRootPath(rootDir: string, sep: char, rest: string)
    requires |rootDir| > 0 && forall k | 0 <= k < |rootDir| :: rootDir[k] !in ScrubbedRootDir
    requires !Contains([sep] + rest, rootDir)
    ensures Scrub(rootDir, sep, rootDir + [sep] + rest) == ScrubbedRootDir + [sep] + rest
  {
    var p := rootDir + [sep];
    var b := rootDir + [sep] + rest;
    assert b[..|p|] == p && b[|p|..] == rest;
    assert !Contains(rest, p) by {
      forall i | 0 <= i <= |rest| - |p| ensures !OccursAt(rest, p, i) {
        assert ([sep] + rest)[i + 1..i + 1 + |rootDir|] == rest[i..i + |p|][..|rootDir|];
        assert !OccursAt([sep] + rest, rootDir, i + 1);
      }
    }
    assert Replace(b, p, ScrubbedRootDir + [sep]) == ScrubbedRootDir + [sep] + rest;
    var x := ScrubbedRootDir + [sep] + rest;
    assert !Contains(x, rootDir) by {
      forall i | 0 <= i <= |x| - |rootDir| ensures !OccursAt(x, rootDir, i) {
        if i < |ScrubbedRootDir| {
          assert x[i] == ScrubbedRootDir[i] && ScrubbedRootDir[i] in ScrubbedRootDir;
          assert x[i..i + |rootDir|][0] == x[i];
        } else {
          var j := i - |ScrubbedRootDir|;
          assert x[i..i + |rootDir|] == ([sep] + rest)[j..j + |rootDir|];
          assert !OccursAt([sep] + rest, rootDir, j);
        }
      }
    }
  }

  /** For instance, with root directory "/r" the file "/r/f" is reported as
      "${ROOTDIR}/f". */
  lemma ScrubExample()
    ensures Scrub("/r", '/', "/r/f") == "${ROOTDIR}/f"
  {
    assert ['/'] + "f" == "/f";
    assert !Contains("/f", "/r") by {
      assert "/f"[0..2][1] == 'f';
    }
    assert "/r" + ['/'] + "f" == "/r/f";
    ScrubRootPath("/r", '/', "f");
  }

  const OutputCutset: set<char> := {' ', '\t', '\n'}

  /** The case's gotOutput for the concatenated output of its commands: none if they
      printed nothing, else the scrubbed text without its trailing blanks, as lines. */
  function CaseOutput(allout: string, rootDir: string, parallel: bool, sep: char): (r: Option<seq<string>>)
    ensures r.None? <==> allout == []
    ensures r.Some? ==> |r.value| >= 1 && forall l | l in r.value :: '\n' !in l
    ensures r.Some? ==>
      Join(r.value, "\n") == TrimRight(if parallel then allout else Scrub(rootDir, sep, allout), OutputCutset)
  {
    if |allout| == 0 then None
    else
      var b := if parallel then allout else Scrub(rootDir, sep, allout);
      Some(Split(TrimRight(b, OutputCutset), '\n'))
  }

  /** Output that is one newline becomes one blank line. */
  lemma NewlineOutput(rootDir: string, parallel: bool, sep: char)
    requires |rootDir| > 0 && rootDir != "\n"
    ensures CaseOutput("\n", rootDir, parallel, sep) == Some([""])
  {
    if !parallel {
      assert !Contains("\n", rootDir) by {
        if |rootDir| == 1 { assert !OccursAt("\n", rootDir, 0); }
      }
      ScrubWithoutRootDir(rootDir, sep, "\n");
    }
    assert TrimRight("\n", OutputCutset) == "";
  }

  /** A case whose one command is a bare echo, run with the built-in echo, prints a
      newline and so leaves gotOutput [""]. */
  lemma EchoCaseOutput(reg: Registry, env: map<string, string>, rootDir: string, parallel: bool, sep: char)
    requires "echo" in reg && reg["echo"] == Echo()
    requires |rootDir| > 0 && rootDir != "\n"
    ensures RunCommands(["echo"], 1, reg, env) == Ok("\n")
    ensures ExecuteCase(["echo"], 1, reg, env, rootDir, parallel, sep) == CaseRun(Some([""]), None)
  {
    EchoArguments(env);
    EchoPrintsNewline();
    assert RunCommand("echo", 1, reg, env) == Ok("\n");
    assert RunFrom(["echo"], 1, CommandRunner(reg, env), 1, "\n") == Ok("\n");
    assert "" + "\n" == "\n";
    NewlineOutput(rootDir, parallel, sep);
  }

  /** The line "echo" asks for success and has the one argument echo. */
  lemma EchoArguments(env: map<string, string>)
    ensures ParseCommand("echo") == Ok(Parsed("echo", false, 0))
    ensures Arguments(Parsed("echo", false, 0), env) == Ok(["echo"])
  {
    EchoParses();
    EchoExpands(env);
    var r := ExpandAll(["echo"], env);
    assert r.Ok? && |r.value| == 1 && r.value[0] == "echo";
    assert r.value == ["echo"];
  }

  lemma EchoParses()
    ensures ParseCommand("echo") == Ok(Parsed("echo", false, 0))
    ensures Fields("echo") == ["echo"]
  {
    assert !Contains("echo", FailMarker) by {
      forall i | 0 <= i <= 1 ensures !OccursAt("echo", FailMarker, i) {
        assert "echo"[i] != ' ';
      }
    }
    ParseFormatted("echo", false, 0);
    FieldsLeading("", "echo", "");
    assert "" + "echo" + "" == "echo";
  }

  lemma EchoExpands(env: map<string, string>)
    ensures Expand("echo", env) == Ok("echo")
  {
    assert forall i, j :: !MatchAt("echo", i, j) by {
      forall i | 0 <= i < 4 ensures "echo"[i] != '$' { }
    }
  }

  lemma EchoPrintsNewline()
    ensures EchoCmd([], "") == CmdResult("\n", None)
  {
    assert Join([], " ") == "";
    assert !Contains("", "\\n");
    assert "" + "\n" == "\n";
  }

  /** What running a case leaves behind: its gotOutput and its error. */
  datatype CaseRun = CaseRun(gotOutput: Option<seq<string>>, err: Option<ExecError>)

  function ExecuteCase(cmds: seq<string>, startLine: int, reg: Registry, env: map<string, string>,
                       rootDir: string, parallel: bool, sep: char): (r: CaseRun)
    ensures r.err.Some? ==> r.gotOutput.None?
  {
    match RunCommands(cmds, startLine, reg, env)
    case Err(e) => CaseRun(None, Some(e))
    case Ok(out) => CaseRun(CaseOutput(out, rootDir, parallel, sep), None)
  }

  /** The run of a case whose commands stop with e. */
  lemma ExecuteCaseStops(cmds: seq<string>, startLine: int, reg: Registry, env: map<string, string>,
                         rootDir: string, parallel: bool, sep: char, e: ExecError)
    requires RunCommands(cmds, startLine, reg, env) == Err(e)
    ensures ExecuteCase(cmds, startLine, reg, env, rootDir, parallel, sep) == CaseRun(None, Some(e))
  {
  }

  /** The run of a case whose commands print out. */
  lemma ExecuteCaseRuns(cmds: seq<string>, startLine: int, reg: Registry, env: map<string, string>,
                        rootDir: string, parallel: bool, sep: char, out: string)
    requires RunCommands(cmds, startLine, reg, env) == Ok(out)
    ensures ExecuteCase(cmds, startLine, reg, env, rootDir, parallel, sep) == CaseRun(CaseOutput(out, rootDir, parallel, sep), None)
  {
  }

  /** How one command whose line parses and whose variables are defined ends: each way
      the case can stop, with the line and command text it reports, or its output. */
  lemma RunCommandOutcome(cmdline: string, line: int, reg: Registry, env: map<string, string>, p: Parsed, args: seq<string>)
    requires ParseCommand(cmdline) == Ok(p)
    requires ExpandAll(Fields(p.cmd), env) == Ok(args)
    ensures |args| == 0 ==> RunCommand(cmdline, line, reg, env) == Err(EmptyCommand(line))
    ensures |args| > 0 && args[0] !in reg ==> RunCommand(cmdline, line, reg, env) == Err(NoSuchCommand(line, args[0]))
    ensures |args| > 0 && args[0] in reg ==>
      var inv := SplitRedirect(args[1..]);
      var res := reg[args[0]](inv.args, inv.inputFile);
      && (res.err.None? && p.wantFail ==> RunCommand(cmdline, line, reg, env) == Err(UnexpectedSuccess(line, p.cmd)))
      && (res.err.Some? && !p.wantFail ==> RunCommand(cmdline, line, reg, env) == Err(UnexpectedFailure(line, p.cmd, res.err.value)))
      && (res.err.Some? && p.wantFail && p.wantExitCode != 0 && ExtractExitCode(res.err.value).None? ==>
            RunCommand(cmdline, line, reg, env) == Err(MissingExitCode(line, p.cmd)))
      && (res.err.Some? && p.wantFail && p.wantExitCode != 0 && ExtractExitCode(res.err.value).Some? &&
          ExtractExitCode(res.err.value).value != p.wantExitCode ==>
            RunCommand(cmdline, line, reg, env) ==
              Err(WrongExitCode(line, p.cmd, ExtractExitCode(res.err.value).value, p.wantExitCode)))
      && (RunCommand(cmdline, line, reg, env).Ok? <==>
            (res.err.Some? <==> p.wantFail) &&
            (res.err.Some? && p.wantExitCode != 0 ==> ExtractExitCode(res.err.value) == Some(p.wantExitCode)))
      && (RunCommand(cmdline, line, reg, env).Ok? ==> RunCommand(cmdline, line, reg, env).value == res.out)
  {
  }

  /** The undefined variable a command line refers to stops the case. */
  lemma RunCommandUndefined(cmdline: string, line: int, reg: Registry, env: map<string, string>, p: Parsed)
    requires ParseCommand(cmdline) == Ok(p)
    requires ExpandAll(Fields(p.cmd), env).Err?
    ensures RunCommand(cmdline, line, reg, env) == Err(UndefinedVariable(ExpandAll(Fields(p.cmd), env).error))
    ensures ExpandAll(Fields(p.cmd), env).error !in env
  {
  }

  // ----- testFile.execute: the cases in order -----

  /** A case after it has run, and the error that stopped it, if any. */
  function RunCase(c: Case, reg: Registry, env: map<string, string>, rootDir: string, parallel: bool, sep: char): (Case, Option<ExecError>) {
    var run := ExecuteCase(c.commands, c.startLine, reg, env, rootDir, parallel, sep);
    (c.(gotOutput := run.gotOutput), run.err)
  }

  /** A way to run one case: the case after it ran, and the error that stopped it. */
  type CaseRunner = Case -> (Case, Option<ExecError>)

  /** The case runner of the engine. */
  function CaseRunnerFor(reg: Registry, env: map<string, string>, rootDir: string, parallel: bool, sep: char): CaseRunner {
    (c: Case) => RunCase(c, reg, env, rootDir, parallel, sep)
  }

  /** runCase runs each case as RunCase does. */
  ghost predicate RunsCases(runCase: CaseRunner, reg: Registry, env: map<string, string>, rootDir: string, parallel: bool, sep: char) {
    forall c {:trigger RunCase(c, reg, env, rootDir, parallel, sep)} :: runCase(c) == RunCase(c, reg, env, rootDir, parallel, sep)
  }

  lemma CaseRunnerForRuns(reg: Registry, env: map<string, string>, rootDir: string, parallel: bool, sep: char)
    ensures RunsCases(CaseRunnerFor(reg, env, rootDir, parallel, sep), reg, env, rootDir, parallel, sep)
  {
  }

  /** The cases of a file run one after the other until one of them fails; the cases
      after it keep what they held. */
  function RunCasesWith(cases: seq<Case>, runCase: CaseRunner): (r: (seq<Case>, Option<ExecError>))
    decreases |cases|
  {
    if |cases| == 0 then ([], None)
    else
      var (c, e) := runCase(cases[0]);
      if e.Some? then ([c] + cases[1..], e)
      else
        var (rest, e') := RunCasesWith(cases[1..], runCase);
        ([c] + rest, e')
  }

  /** testFile.execute's loop over the cases of a file. */
  function RunCases(cases: seq<Case>, reg: Registry, env: map<string, string>, rootDir: string, parallel: bool, sep: char): (seq<Case>, Option<ExecError>) {
    RunCasesWith(cases, CaseRunnerFor(reg, env, rootDir, parallel, sep))
  }

  /** One step of RunCasesWith, taken at the i-th case. */
  lemma RunCasesUnfold(cases: seq<Case>, i: nat, runCase: CaseRunner)
    requires i < |cases|
    ensures var (c, e) := runCase(cases[i]);
      RunCasesWith(cases[i..], runCase) ==
        if e.Some? then ([c] + cases[i + 1..], e)
        else ([c] + RunCasesWith(cases[i + 1..], runCase).0, RunCasesWith(cases[i + 1..], runCase).1)
  {
    assert cases[i..][0] == cases[i];
    assert cases[i..][1..] == cases[i + 1..];
  }

  /** The run of a file whose first cases ran to done, stopped by the next case. */
  lemma RunCasesStops(cases: seq<Case>, i: nat, done: seq<Case>, runCase: CaseRunner)
    requires i < |cases| && runCase(cases[i]).1.Some?
    requires RunCasesWith(cases, runCase) == (done + RunCasesWith(cases[i..], runCase).0, RunCasesWith(cases[i..], runCase).1)
    ensures RunCasesWith(cases, runCase) == (done + [runCase(cases[i]).0] + cases[i + 1..], runCase(cases[i]).1)
  {
    RunCasesUnfold(cases, i, runCase);
    var c := runCase(cases[i]).0;
    assert done + ([c] + cases[i + 1..]) == done + [c] + cases[i + 1..];
  }

  /** The run of a file whose first cases ran to done, carried over the next case. */
  lemma RunCasesGoesOn(cases: seq<Case>, i: nat, done: seq<Case>, runCase: CaseRunner)
    requires i < |cases| && runCase(cases[i]).1.None?
    requires RunCasesWith(cases, runCase) == (done + RunCasesWith(cases[i..], runCase).0, RunCasesWith(cases[i..], runCase).1)
    ensures RunCasesWith(cases, runCase) ==
      ((done + [runCase(cases[i]).0]) + RunCasesWith(cases[i + 1..], runCase).0, RunCasesWith(cases[i + 1..], runCase).1)
  {
    RunCasesUnfold(cases, i, runCase);
    var c := runCase(cases[i]).0;
    var rest := RunCasesWith(cases[i + 1..], runCase).0;
    assert done + ([c] + rest) == (done + [c]) + rest;
  }

  /** The run of a file before any case ran. */
  lemma RunCasesStart(cases: seq<Case>, runCase: CaseRunner)
    ensures RunCasesWith(cases, runCase) == ([] + RunCasesWith(cases[0..], runCase).0, RunCasesWith(cases[0..], runCase).1)
  {
    assert cases[0..] == cases;
    assert [] + RunCasesWith(cases, runCase).0 == RunCasesWith(cases, runCase).0;
  }

  /** Every case before the k-th runs through. */
  ghost predicate RunsThrough(cases: seq<Case>, k: int, runCase: CaseRunner)
    requires 0 <= k <= |cases|
  {
    forall m | 0 <= m < k :: runCase(cases[m]).1.None?
  }

  /** A file runs through iff each of its cases does; a case is run iff all the cases
      before it ran through, and then it holds the output of its run; the error is
      that of the first case that failed. */
  lemma {:induction false} RunCasesSpec(cases: seq<Case>, runCase: CaseRunner)
    ensures var r := RunCasesWith(cases, runCase);
      && |r.0| == |cases|
      && (r.1.None? <==> RunsThrough(cases, |cases|, runCase))
      && (forall k | 0 <= k < |cases| ::
            r.0[k] == if RunsThrough(cases, k, runCase) then runCase(cases[k]).0 else cases[k])
      && (r.1.Some? ==> exists k | 0 <= k < |cases| ::
            RunsThrough(cases, k, runCase) && runCase(cases[k]).1 == r.1)
    decreases |cases|
  {
    if |cases| > 0 {
      var tail := cases[1..];
      RunCasesSpec(tail, runCase);
      var (c, e) := runCase(cases[0]);
      var r := RunCasesWith(cases, runCase);
      forall k | 1 <= k <= |cases|
        ensures RunsThrough(cases, k, runCase) <==> e.None? && RunsThrough(tail, k - 1, runCase)
      {
        if e.None? && RunsThrough(tail, k - 1, runCase) {
          forall m | 0 <= m < k ensures runCase(cases[m]).1.None? {
            if m > 0 { assert cases[m] == tail[m - 1]; }
          }
        }
        if RunsThrough(cases, k, runCase) {
          forall m | 0 <= m < k - 1 ensures runCase(tail[m]).1.None? {
            assert tail[m] == cases[m + 1];
          }
        }
      }
      if e.Some? {
        assert r == ([c] + tail, e);
        assert !RunsThrough(cases, |cases|, runCase);
        assert RunsThrough(cases, 0, runCase);
      } else {
        var t := RunCasesWith(tail, runCase);
        assert r == ([c] + t.0, t.1);
        if r.1.Some? {
          var k :| 0 <= k < |tail| && RunsThrough(tail, k, runCase) && runCase(tail[k]).1 == t.1;
          assert cases[k + 1] == tail[k];
          assert RunsThrough(cases, k + 1, runCase);
        }
      }
    }
  }
}
