/** The objects a test run works on: testCase and testFile (cmdtest.go:127-141), the
    loops that read a file into them (readFile, addCommandLine, addCase,
    cmdtest.go:194-290), run their commands (testCase.execute and the case loop of
    testFile.execute, cmdtest.go:401-516), write them back (cmdtest.go:702-744),
    compare them (cmdtest.go:344-357) and replace the file through a temporary one
    (update and updateToTemp, cmdtest.go:361-399). Each method is proved against the
    functions of modules Format and Engine. */
module CmdTest {
  import opened Wrappers
  import opened Text
  import opened CommandLine
  import opened Variables
  import opened Commands
  import opened Engine
  import opened Format
  import opened TempFiles

  class TestCase {
    /** Lines before the commands. */
    var before: seq<string>
    /** Line of the first command. */
    var startLine: int
    var commands: seq<string>
    /** From execution; None is Go's nil. */
    var gotOutput: Option<seq<string>>
    /** From the file. */
    var wantOutput: seq<string>

    function Value(): Case
      reads this
    {
      Case(before, startLine, commands, wantOutput, gotOutput)
    }

    constructor(startLine: int, before: seq<string>)
      ensures Value() == Case(before, startLine, [], [], None)
    {
      this.before := before;
      this.startLine := startLine;
      commands := [];
      gotOutput := None;
      wantOutput := [];
    }

    /** addCommandLine */
    method AddCommandLine(line: string)
      requires IsCommand(line)
      modifies this`commands
      ensures commands == old(commands) + [CommandText(line)]
    {
      commands := commands + [TrimSpace(line[1..])];
    }

    /** testCase.execute: run the commands in order, stopping at the first that goes
        wrong; gotOutput is set only when all of them ran and some printed something. */
    method Execute(reg: Registry, env: map<string, string>, rootDir: string, parallel: bool, sep: char, ghost runCase: CaseRunner)
      returns (err: Option<ExecError>)
      requires RunsCases(runCase, reg, env, rootDir, parallel, sep)
      modifies this`gotOutput
      ensures (Value(), err) == runCase(old(Value()))
    {
      assert runCase(Value()) == RunCase(Value(), reg, env, rootDir, parallel, sep);
      gotOutput := None;
      var allout;
      CommandRunnerRuns(reg, env);
      allout, err := RunAll(commands, startLine, reg, env, CommandRunner(reg, env));
      if err.Some? {
        ExecuteCaseStops(commands, startLine, reg, env, rootDir, parallel, sep, err.value);
        return;
      }
      ExecuteCaseRuns(commands, startLine, reg, env, rootDir, parallel, sep, allout);
      if |allout| > 0 {
        var b := if parallel then allout else Scrub(rootDir, sep, allout);
        gotOutput := Some(Split(TrimRight(b, OutputCutset), '\n'));
      }
    }

    /** testCase.write */
    method Write(w: SimpleTempFile) returns (err: Option<OsError>)
      requires w.Valid()
      modifies w.fs
      ensures Wrote(w.name, w.isOpen, old(w.fs.files), w.fs.files, Render(WriteCase(Value())), err)
    {
      ghost var files0 := w.fs.files;
      ghost var c := Value();
      err := WriteLines(w, before);
      if err.Some? {
        RenderAppend(c.before, CommandLines(c.commands));
        RenderAppend(c.before + CommandLines(c.commands), OutputOf(c));
        WroteStopped(w.name, w.isOpen, files0, w.fs.files, Render(c.before), Render(CommandLines(c.commands)) + Render(OutputOf(c)), err);
        assert Render(c.before) + (Render(CommandLines(c.commands)) + Render(OutputOf(c))) == Render(WriteCase(c));
        return;
      }
      ghost var files1 := w.fs.files;
      err := WriteCommands(w);
      RenderAppend(c.before, CommandLines(c.commands));
      WroteThen(w.name, w.isOpen, files0, files1, w.fs.files, Render(c.before), Render(CommandLines(c.commands)), err);
      RenderAppend(c.before + CommandLines(c.commands), OutputOf(c));
      if err.Some? {
        WroteStopped(w.name, w.isOpen, files0, w.fs.files, Render(c.before + CommandLines(c.commands)), Render(OutputOf(c)), err);
        return;
      }
      ghost var files2 := w.fs.files;
      var out := gotOutput;
      var lines := if out.None? then wantOutput else out.value;
      err := WriteLines(w, lines);
      WroteThen(w.name, w.isOpen, files0, files2, w.fs.files, Render(c.before + CommandLines(c.commands)), Render(OutputOf(c)), err);
    }

    /** writeCommands: each command as "$ " and the command, on a line of its own. */
    method WriteCommands(w: SimpleTempFile) returns (err: Option<OsError>)
      requires w.Valid()
      modifies w.fs
      ensures Wrote(w.name, w.isOpen, old(w.fs.files), w.fs.files, Render(CommandLines(commands)), err)
    {
      var cmds := commands;
      ghost var files0 := w.fs.files;
      var i := 0;
      assert cmds[..0] == [];
      while i < |cmds|
        invariant 0 <= i <= |cmds|
        invariant Wrote(w.name, w.isOpen, files0, w.fs.files, Render(CommandLines(cmds[..i])), None)
      {
        ghost var files1 := w.fs.files;
        err := w.WriteString("$ " + cmds[i] + "\n");
        CommandLinesTake(cmds, i);
        WroteThen(w.name, w.isOpen, files0, files1, w.fs.files, Render(CommandLines(cmds[..i])), "$ " + cmds[i] + "\n", err);
        if err.Some? {
          CommandLinesPrefix(cmds, i + 1);
          WroteStopped(w.name, w.isOpen, files0, w.fs.files, Render(CommandLines(cmds[..i + 1])), Render(CommandLines(cmds[i + 1..])), err);
          return;
        }
        i := i + 1;
      }
      assert cmds[..i] == cmds;
      return None;
    }
  }

  /** The loop of testCase.execute: the commands in order, their output collected in
      allout, until one of them goes wrong. */
  method RunAll(cmds: seq<string>, startLine: int, reg: Registry, env: map<string, string>, ghost run: Runner)
    returns (allout: string, err: Option<ExecError>)
    requires RunsCommands(run, reg, env)
    ensures err.None? ==> RunFrom(cmds, startLine, run, 0, []) == Ok(allout)
    ensures err.Some? ==> RunFrom(cmds, startLine, run, 0, []) == Err(err.value)
  {
    allout := [];
    ghost var total := RunFrom(cmds, startLine, run, 0, []);
    var i := 0;
    while i < |cmds|
      invariant 0 <= i <= |cmds|
      invariant RunFrom(cmds, startLine, run, i, allout) == total
    {
      RunFromAfter(cmds, startLine, run, i, allout, total);
      allout, err := RunOne(cmds[i], startLine + i, reg, env, allout, run);
      if err.Some? {
        return;
      }
      i := i + 1;
    }
    return allout, None;
  }

  /** The body of testCase.execute's loop for one command: its output appended to
      allout, or the error that stops the case. */
  method RunOne(cmdline: string, line: int, reg: Registry, env: map<string, string>, allout: string, ghost run: Runner)
    returns (allout': string, err: Option<ExecError>)
    requires RunsCommands(run, reg, env)
    ensures run(cmdline, line).Ok? <==> err.None?
    ensures err.None? ==> allout' == allout + run(cmdline, line).value
    ensures err.Some? ==> run(cmdline, line) == Err(err.value)
  {
    assert run(cmdline, line) == RunCommand(cmdline, line, reg, env);
    allout' := allout;
    var parsed := ParseCommand(cmdline);
    if parsed.Err? {
      return allout', Some(BadFailMarker(parsed.error));
    }
    var p := parsed.value;
    var expanded := ExpandArgs(Fields(p.cmd), env);
    if expanded.Err? {
      return allout', Some(UndefinedVariable(expanded.error));
    }
    assert Arguments(p, env) == Ok(expanded.value);
    allout', err := Invoke(p, expanded.value, line, reg, allout);
  }

  /** The rest of the loop body, once the command line parsed to p and its arguments
      expanded to args: look the command up, run it, and reconcile its outcome. */
  method Invoke(p: Parsed, args: seq<string>, line: int, reg: Registry, allout: string)
    returns (allout': string, err: Option<ExecError>)
    ensures RunArguments(p, args, line, reg).Ok? <==> err.None?
    ensures err.None? ==> allout' == allout + RunArguments(p, args, line, reg).value
    ensures err.Some? ==> RunArguments(p, args, line, reg) == Err(err.value)
  {
    allout' := allout;
    if |args| == 0 {
      return allout', Some(EmptyCommand(line));
    }
    var name := args[0];
    var rest := args[1..];
    var infile := "";
    if |rest| >= 2 && rest[|rest| - 2] == "<" {
      infile := rest[|rest| - 1];
      rest := rest[..|rest| - 2];
    }
    assert SplitRedirect(args[1..]) == Invocation(rest, infile);
    if name !in reg {
      return allout', Some(NoSuchCommand(line, name));
    }
    var res := reg[name](rest, infile);
    allout' := allout + res.out;
    if res.err.None? && p.wantFail {
      return allout', Some(UnexpectedSuccess(line, p.cmd));
    }
    if res.err.Some? && !p.wantFail {
      return allout', Some(UnexpectedFailure(line, p.cmd, res.err.value));
    }
    if res.err.Some? && p.wantFail && p.wantExitCode != 0 {
      var code := ExtractExitCode(res.err.value);
      if code.None? {
        return allout', Some(MissingExitCode(line, p.cmd));
      }
      if code.value != p.wantExitCode {
        return allout', Some(WrongExitCode(line, p.cmd, code.value, p.wantExitCode));
      }
    }
    return allout', None;
  }

  /** The loop of testCase.execute that expands the variables of each argument in place. */
  method ExpandArgs(args: seq<string>, env: map<string, string>) returns (r: Result<seq<string>, string>)
    ensures r == ExpandAll(args, env)
  {
    var a := new string[|args|](k requires 0 <= k < |args| => args[k]);
    var i := 0;
    while i < a.Length
      invariant 0 <= i <= a.Length == |args|
      invariant ExpandAll(args[..i], env) == Ok(a[..i])
      invariant a[i..] == args[i..]
    {
      assert args[..i + 1][..i] == args[..i];
      assert a[i] == args[i] by { assert a[i..][0] == args[i..][0]; }
      var x := ExpandVariables(a[i], env);
      if x.Err? {
        ExpandAllStops(args, env, i + 1);
        return Err(x.error);
      }
      ghost var before := a[..];
      a[i] := x.value;
      assert a[..] == before[i := x.value];
      UpdateParts(before, args, i, x.value);
      assert a[..i + 1] == a[..i] + [x.value];
      i := i + 1;
    }
    assert args[..i] == args && a[..i] == a[..];
    return Ok(a[..]);
  }

  /** Setting the i-th element keeps those before it, and those after it still
      agree with args. */
  lemma UpdateParts(before: seq<string>, args: seq<string>, i: nat, v: string)
    requires i < |before| == |args| && before[i..] == args[i..]
    ensures before[i := v][..i] == before[..i] && before[i := v][..i + 1] == before[..i] + [v]
    ensures before[i := v][i + 1..] == args[i + 1..]
  {
    assert before[i + 1..] == before[i..][1..];
    assert args[i + 1..] == args[i..][1..];
  }

  /** The cases of cs as values. */
  function ValuesOf(cs: seq<TestCase>): (r: seq<Case>)
    reads cs
    ensures |r| == |cs| && forall k | 0 <= k < |cs| :: r[k] == cs[k].Value()
  {
    if cs == [] then [] else [cs[0].Value()] + ValuesOf(cs[1..])
  }

  /** Replacing the next case after the done ones. */
  lemma NextDone(done: seq<Case>, cs: seq<Case>, i: nat, v: Case)
    requires |done| == i < |cs|
    ensures (done + cs[i..])[i := v] == (done + [v]) + cs[i + 1..]
  {
  }

  /** The first i cases have run through, to the values done: running all of cs
      is running the rest after them. */
  ghost predicate RanUpTo(cs: seq<Case>, i: nat, done: seq<Case>, runCase: CaseRunner)
    requires i <= |cs|
  {
    RunCasesWith(cs, runCase) == (done + RunCasesWith(cs[i..], runCase).0, RunCasesWith(cs[i..], runCase).1)
  }

  class TestFile {
    /** Full name of the test file. */
    const filename: string
    var cases: seq<TestCase>
    /** Non-output lines after the last case. */
    var suffix: seq<string>

    constructor(filename: string)
      ensures this.filename == filename && cases == [] && suffix == []
    {
      this.filename := filename;
      cases := [];
      suffix := [];
    }

    /** No case is stored twice, so each can be changed without touching another. */
    ghost predicate Valid()
      reads this
    {
      forall i, j | 0 <= i < j < |cases| :: cases[i] != cases[j]
    }

    function Values(): seq<Case>
      reads this, cases
    {
      ValuesOf(cases)
    }

    function Contents(): File
      reads this, cases
    {
      File(Values(), suffix)
    }

    /** addCase: cut the ignorable lines off the end of tc's output, store tc and
        return the lines cut off. */
    method AddCase(tc: TestCase) returns (cut: seq<string>)
      requires Valid() && tc !in cases
      modifies this`cases, tc`wantOutput
      ensures Valid()
      ensures (tc.wantOutput, cut) == SplitOutput(old(tc.wantOutput))
      ensures cases == old(cases) + [tc]
      ensures Values() == old(Values()) + [tc.Value()]
    {
      var w := tc.wantOutput;
      var i := |w| - 1;
      while i >= 0
        invariant -1 <= i < |w|
        invariant forall k | i < k < |w| :: Ignorable(w[k])
      {
        if w[i] != "" && w[i][0] != '#' {
          break;
        }
        i := i - 1;
      }
      i := i + 1;
      TrailingStartUnique(w, i);
      var keep := w[..i];
      cut := w[i..];
      tc.wantOutput := keep;
      cases := cases + [tc];
    }

    /** The loop of testFile.execute over the cases, without the root directory it
        sets up; the error is not prefixed with the file name. */
    method Execute(reg: Registry, env: map<string, string>, rootDir: string, parallel: bool, sep: char, ghost runCase: CaseRunner)
      returns (err: Option<ExecError>)
      requires Valid() && RunsCases(runCase, reg, env, rootDir, parallel, sep)
      modifies cases
      ensures (Values(), err) == RunCasesWith(old(Values()), runCase)
    {
      ghost var cs := Values();
      ghost var done: seq<Case> := [];
      var i := 0;
      RunCasesStart(cs, runCase);
      assert cs[0..] == cs;
      while i < |cases|
        invariant 0 <= i <= |cases| == |cs| && |done| == i
        invariant Valid() && Values() == done + cs[i..]
        invariant RanUpTo(cs, i, done, runCase)
      {
        var e;
        e, done := ExecuteNext(i, reg, env, rootDir, parallel, sep, runCase, cs, done);
        if e.Some? {
          return e;
        }
        i := i + 1;
      }
      assert cs[i..] == [];
      assert done + RunCasesWith([], runCase).0 == done;
      return None;
    }

    /** One pass of tf.execute's loop, from what the cases cs were and the values
        the first i of them have after running. */
    method ExecuteNext(i: nat, reg: Registry, env: map<string, string>, rootDir: string, parallel: bool, sep: char,
                       ghost runCase: CaseRunner, ghost cs: seq<Case>, ghost done: seq<Case>)
      returns (err: Option<ExecError>, ghost done': seq<Case>)
      requires Valid() && i < |cases| == |cs| && |done| == i && RunsCases(runCase, reg, env, rootDir, parallel, sep)
      requires Values() == done + cs[i..]
      requires RanUpTo(cs, i, done, runCase)
      modifies cases[i]
      ensures err.Some? ==> (Values(), err) == RunCasesWith(cs, runCase)
      ensures err.None? ==> |done'| == i + 1 && Values() == done' + cs[i + 1..]
      ensures err.None? ==> RanUpTo(cs, i + 1, done', runCase)
    {
      err := ExecuteAt(i, reg, env, rootDir, parallel, sep, runCase);
      NextDone(done, cs, i, runCase(cs[i]).0);
      done' := done + [runCase(cs[i]).0];
      if err.Some? {
        RunCasesStops(cs, i, done, runCase);
        return;
      }
      RunCasesGoesOn(cs, i, done, runCase);
    }

    /** One pass of tf.execute's loop: run the i-th case; no other case changes. */
    method ExecuteAt(i: nat, reg: Registry, env: map<string, string>, rootDir: string, parallel: bool, sep: char, ghost runCase: CaseRunner)
      returns (err: Option<ExecError>)
      requires Valid() && i < |cases| && RunsCases(runCase, reg, env, rootDir, parallel, sep)
      modifies cases[i]
      ensures (Values()[i], err) == runCase(old(Values())[i])
      ensures Values() == old(Values())[i := Values()[i]]
    {
      var tc := cases[i];
      err := tc.Execute(reg, env, rootDir, parallel, sep, runCase);
    }

    /** testFile.write: the lines of each case, then the suffix. */
    method Write(w: SimpleTempFile) returns (err: Option<OsError>)
      requires w.Valid()
      modifies w.fs
      ensures Wrote(w.name, w.isOpen, old(w.fs.files), w.fs.files, Render(WriteFile(old(Contents()))), err)
    {
      ghost var vs := Values();
      ghost var files0 := w.fs.files;
      var i := 0;
      assert vs[..0] == [];
      while i < |cases|
        invariant 0 <= i <= |cases|
        invariant Wrote(w.name, w.isOpen, files0, w.fs.files, Render(WriteCases(vs[..i])), None)
      {
        ghost var files1 := w.fs.files;
        var e := cases[i].Write(w);
        WroteNextCase(w.name, w.isOpen, files0, files1, w.fs.files, vs, i, e);
        if e.Some? {
          WroteCasesStopped(w.name, w.isOpen, files0, w.fs.files, vs, suffix, i + 1, e);
          return e;
        }
        i := i + 1;
      }
      assert vs[..i] == vs;
      ghost var files1 := w.fs.files;
      err := WriteLines(w, suffix);
      WroteSuffix(w.name, w.isOpen, files0, files1, w.fs.files, vs, suffix, err);
    }

    /** testFile.compare, after a successful execute: the start lines of the cases
        whose output differs from what the file expects, in file order. */
    method Differences() returns (lines: seq<int>)
      ensures lines == Differing(Values())
    {
      ghost var vs := Values();
      lines := [];
      var i := 0;
      assert vs[..0] == [];
      while i < |cases|
        invariant 0 <= i <= |cases|
        invariant lines == Differing(vs[..i])
      {
        var c := cases[i];
        assert vs[..i + 1][..i] == vs[..i];
        var got := if c.gotOutput.Some? then c.gotOutput.value else [];
        if c.wantOutput != got {
          lines := lines + [c.startLine];
        }
        i := i + 1;
      }
      assert vs[..i] == vs;
    }
  }

  /** Writing the i-th case after the first i writes the first i + 1. */
  lemma WroteNextCase(name: string, isOpen: bool, m0: map<string, string>, m1: map<string, string>, m2: map<string, string>,
                      vs: seq<Case>, i: nat, e: Option<OsError>)
    requires i < |vs|
    requires Wrote(name, isOpen, m0, m1, Render(WriteCases(vs[..i])), None)
    requires Wrote(name, isOpen, m1, m2, Render(WriteCase(vs[i])), e)
    ensures Wrote(name, isOpen, m0, m2, Render(WriteCases(vs[..i + 1])), e)
  {
    WriteCasesTake(vs, i);
    WroteThen(name, isOpen, m0, m1, m2, Render(WriteCases(vs[..i])), Render(WriteCase(vs[i])), e);
  }

  /** Writing the suffix after the cases writes the file. */
  lemma WroteSuffix(name: string, isOpen: bool, m0: map<string, string>, m1: map<string, string>, m2: map<string, string>,
                    vs: seq<Case>, suffix: seq<string>, e: Option<OsError>)
    requires Wrote(name, isOpen, m0, m1, Render(WriteCases(vs)), None)
    requires Wrote(name, isOpen, m1, m2, Render(suffix), e)
    ensures Wrote(name, isOpen, m0, m2, Render(WriteFile(File(vs, suffix))), e)
  {
    RenderAppend(WriteCases(vs), suffix);
    WroteThen(name, isOpen, m0, m1, m2, Render(WriteCases(vs)), Render(suffix), e);
  }

  lemma WriteCasesTake(vs: seq<Case>, i: nat)
    requires i < |vs|
    ensures Render(WriteCases(vs[..i + 1])) == Render(WriteCases(vs[..i])) + Render(WriteCase(vs[i]))
  {
    WriteCasesStep(vs, i);
    RenderAppend(WriteCases(vs[..i]), WriteCase(vs[i]));
  }

  /** A write that fails after the first j cases fails the write of the whole file. */
  lemma WroteCasesStopped(name: string, isOpen: bool, m0: map<string, string>, m1: map<string, string>,
                          vs: seq<Case>, suffix: seq<string>, j: nat, e: Option<OsError>)
    requires j <= |vs| && e.Some?
    requires Wrote(name, isOpen, m0, m1, Render(WriteCases(vs[..j])), e)
    ensures Wrote(name, isOpen, m0, m1, Render(WriteFile(File(vs, suffix))), e)
  {
    var rest := WrittenAfter(vs, suffix, j);
    WroteStopped(name, isOpen, m0, m1, Render(WriteCases(vs[..j])), rest, e);
  }

  /** What writing a file writes after its first j cases. */
  lemma WrittenAfter(vs: seq<Case>, suffix: seq<string>, j: nat) returns (rest: string)
    requires j <= |vs|
    ensures Render(WriteFile(File(vs, suffix))) == Render(WriteCases(vs[..j])) + rest
  {
    var w := WriteCases(vs[..j]);
    var more := WriteCasesPrefix(vs, j);
    rest := Render(more) + Render(suffix);
    calc {
      Render(WriteFile(File(vs, suffix)));
    == { assert WriteFile(File(vs, suffix)) == (w + more) + suffix; }
      Render((w + more) + suffix);
    == { RenderAppend(w + more, suffix); }
      Render(w + more) + Render(suffix);
    == { RenderAppend(w, more); }
      (Render(w) + Render(more)) + Render(suffix);
    ==
      Render(w) + rest;
    }
  }

  /** The lines of the first k commands are written before those of the rest. */
  lemma CommandLinesPrefix(cmds: seq<string>, k: nat)
    requires k <= |cmds|
    ensures Render(CommandLines(cmds)) == Render(CommandLines(cmds[..k])) + Render(CommandLines(cmds[k..]))
  {
    assert cmds == cmds[..k] + cmds[k..];
    CommandLinesAppend(cmds[..k], cmds[k..]);
    RenderAppend(CommandLines(cmds[..k]), CommandLines(cmds[k..]));
  }

  lemma CommandLinesTake(cmds: seq<string>, i: nat)
    requires i < |cmds|
    ensures Render(CommandLines(cmds[..i + 1])) == Render(CommandLines(cmds[..i])) + ("$ " + cmds[i] + "\n")
  {
    assert cmds[..i + 1][..i] == cmds[..i];
    var l := CommandLines(cmds[..i]);
    assert CommandLines(cmds[..i + 1]) == l + ["$ " + cmds[i]];
    RenderTake(l + ["$ " + cmds[i]], |l|);
    assert (l + ["$ " + cmds[i]])[..|l|] == l;
    assert (l + ["$ " + cmds[i]])[..|l| + 1] == l + ["$ " + cmds[i]];
    RestShape(Render(l), "$ " + cmds[i], []);
  }

  lemma CommandLinesAppend(a: seq<string>, b: seq<string>)
    ensures CommandLines(a + b) == CommandLines(a) + CommandLines(b)
  {
    var r := CommandLines(a) + CommandLines(b);
    assert |CommandLines(a + b)| == |r|;
    forall k | 0 <= k < |r| ensures CommandLines(a + b)[k] == r[k] {
      if k < |a| { assert (a + b)[k] == a[k]; } else { assert (a + b)[k] == b[k - |a|]; }
    }
  }

  /** writeLines: each line followed by a newline, as two writes. */
  method WriteLines(w: SimpleTempFile, lines: seq<string>) returns (err: Option<OsError>)
    requires w.Valid()
    modifies w.fs
    ensures Wrote(w.name, w.isOpen, old(w.fs.files), w.fs.files, Render(lines), err)
  {
    ghost var files0 := w.fs.files;
    var i := 0;
    assert lines[..0] == [];
    while i < |lines|
      invariant 0 <= i <= |lines|
      invariant Wrote(w.name, w.isOpen, files0, w.fs.files, Render(lines[..i]), None)
    {
      ghost var files1 := w.fs.files;
      RenderTake(lines, i);
      err := w.WriteString(lines[i]);
      WroteThen(w.name, w.isOpen, files0, files1, w.fs.files, Render(lines[..i]), lines[i], err);
      if err.Some? {
        RenderRest(lines, i);
        WroteStopped(w.name, w.isOpen, files0, w.fs.files, Render(lines[..i]) + lines[i], "\n" + Render(lines[i + 1..]), err);
        return;
      }
      ghost var files2 := w.fs.files;
      err := w.WriteString("\n");
      WroteThen(w.name, w.isOpen, files0, files2, w.fs.files, Render(lines[..i]) + lines[i], "\n", err);
      if err.Some? {
        RenderRest(lines, i);
        WroteStopped(w.name, w.isOpen, files0, w.fs.files, Render(lines[..i]) + lines[i] + "\n", Render(lines[i + 1..]), err);
        return;
      }
      i := i + 1;
    }
    assert lines[..i] == lines;
    return None;
  }

  lemma RenderRest(lines: seq<string>, i: nat)
    requires i < |lines|
    ensures Render(lines) == Render(lines[..i]) + lines[i] + "\n" + Render(lines[i + 1..])
    ensures Render(lines) == Render(lines[..i]) + lines[i] + ("\n" + Render(lines[i + 1..]))
  {
    RenderSplit(lines, i + 1);
    RenderTake(lines, i);
    RestShape(Render(lines[..i]), lines[i], Render(lines[i + 1..]));
  }

  lemma RenderSplit(lines: seq<string>, j: nat)
    requires j <= |lines|
    ensures Render(lines) == Render(lines[..j]) + Render(lines[j..])
  {
    var a, b := lines[..j], lines[j..];
    RenderAppend(a, b);
    assert a + b == lines;
  }

  lemma RenderTake(lines: seq<string>, i: nat)
    requires i < |lines|
    ensures Render(lines[..i + 1]) == Render(lines[..i]) + lines[i] + "\n"
  {
    assert lines[..i + 1][..i] == lines[..i];
  }

  lemma RestShape(x: string, l: string, r: string)
    ensures x + l + "\n" + r == x + l + ("\n" + r)
  {
  }

  /** Why update stops. */
  datatype UpdateError =
    | ExecuteFailed(err: ExecError)
    | CreateFailed(os: OsError)
    | WriteFailed(os: OsError)
    | ReplaceFailed(os: OsError)

  /** updateToTemp: run the file's cases, then write them to a new temporary file.
      The file is returned once created, even when writing to it failed. */
  method UpdateToTemp(tf: TestFile, fs: FileSystem, tempName: string, reg: Registry, env: map<string, string>,
                      rootDir: string, parallel: bool, sep: char, ghost runCase: CaseRunner)
    returns (f: SimpleTempFile?, err: Option<UpdateError>)
    requires tf.Valid() && tempName != tf.filename && RunsCases(runCase, reg, env, rootDir, parallel, sep)
    modifies fs, tf.cases
    ensures var r := RunCasesWith(old(tf.Values()), runCase);
      && tf.Values() == r.0
      && (r.1.Some? ==> f == null && err == Some(ExecuteFailed(r.1.value)))
    ensures f == null ==> err.Some? && fs.files == old(fs.files)
    ensures f != null ==>
      && fresh(f) && f.Valid() && f.fs == fs && f.name == tempName && f.path == tf.filename
      && !f.closed && !f.done && tempName !in old(fs.files) && tempName in fs.files
      && fs.files == old(fs.files)[tempName := fs.files[tempName]]
    ensures f != null && err.None? ==> fs.files[tempName] == Render(WriteFile(tf.Contents()))
    ensures f != null && err.Some? ==> err.value.WriteFailed?
  {
    var e := tf.Execute(reg, env, rootDir, parallel, sep, runCase);
    if e.Some? {
      return null, Some(ExecuteFailed(e.value));
    }
    f, err := WriteToTemp(tf, fs, tempName);
  }

  /** The rest of updateToTemp: create the temporary file and write the file's cases
      to it. */
  method WriteToTemp(tf: TestFile, fs: FileSystem, tempName: string) returns (f: SimpleTempFile?, err: Option<UpdateError>)
    requires tempName != tf.filename
    modifies fs
    ensures f == null ==> err.Some? && err.value.CreateFailed? && fs.files == old(fs.files)
    ensures f != null ==>
      && fresh(f) && f.Valid() && f.fs == fs && f.name == tempName && f.path == tf.filename
      && !f.closed && !f.done && tempName !in old(fs.files) && tempName in fs.files
      && fs.files == old(fs.files)[tempName := fs.files[tempName]]
    ensures f != null && err.None? ==> fs.files[tempName] == Render(WriteFile(tf.Contents()))
    ensures f != null && err.Some? ==> err.value.WriteFailed?
  {
    var created := CreateTempFile(fs, tf.filename, tempName);
    if created.Err? {
      return null, Some(CreateFailed(created.error));
    }
    f := created.value;
    var we := tf.Write(f);
    if we.Some? {
      return f, Some(WriteFailed(we.value));
    }
    return f, None;
  }

  /** What update does for one test file: updateToTemp, then, with the temporary file
      it returns, replace the test file by it, and clean it up as the deferred call
      does. The test file ends up holding the written cases, or as it was; the
      temporary file is gone unless cleaning up reports an error. */
  method Update(tf: TestFile, fs: FileSystem, tempName: string, reg: Registry, env: map<string, string>,
                rootDir: string, parallel: bool, sep: char, ghost runCase: CaseRunner)
    returns (err: Option<UpdateError>, cleanupErr: Option<OsError>)
    requires tf.Valid() && tempName != tf.filename && RunsCases(runCase, reg, env, rootDir, parallel, sep)
    modifies fs, tf.cases
    ensures var r := RunCasesWith(old(tf.Values()), runCase);
      tf.Values() == r.0 && (r.1.Some? ==> err == Some(ExecuteFailed(r.1.value)))
    ensures err.None? ==> cleanupErr.None? && fs.files == old(fs.files)[tf.filename := Render(WriteFile(tf.Contents()))]
    ensures err.Some? && cleanupErr.None? ==> fs.files == old(fs.files)
    ensures err.Some? ==> (tf.filename in fs.files <==> tf.filename in old(fs.files)) &&
                          (tf.filename in fs.files ==> fs.files[tf.filename] == old(fs.files)[tf.filename])
  {
    var f, e := UpdateToTemp(tf, fs, tempName, reg, env, rootDir, parallel, sep, runCase);
    ghost var written := fs.files;
    if f != null {
      RemoveCreated(old(fs.files), tempName, written[tempName]);
    }
    err, cleanupErr := Settle(fs, f, tf, tempName, e);
  }

  /** The end of update: with no temporary file, report the error; with one, replace
      the test file by it unless an earlier step failed, then clean it up. */
  method Settle(fs: FileSystem, f: SimpleTempFile?, tf: TestFile, tempName: string, e: Option<UpdateError>)
    returns (err: Option<UpdateError>, cleanupErr: Option<OsError>)
    requires f == null ==> e.Some?
    requires f != null ==> f.Valid() && f.fs == fs && f.name == tempName && f.path == tf.filename && !f.closed && !f.done
    modifies fs, f
    ensures tf.Values() == old(tf.Values()) && tf.Contents() == old(tf.Contents())
    ensures e.Some? ==> err == e
    ensures err.None? ==> e.None? && cleanupErr.None? && tempName in old(fs.files) &&
                          fs.files == (old(fs.files) - {tempName})[tf.filename := old(fs.files)[tempName]]
    ensures f == null ==> cleanupErr.None? && fs.files == old(fs.files)
    ensures f != null && err.Some? && cleanupErr.None? ==> fs.files == old(fs.files) - {tempName}
    ensures err.Some? ==> (tf.filename in fs.files <==> tf.filename in old(fs.files)) &&
                          (tf.filename in fs.files ==> fs.files[tf.filename] == old(fs.files)[tf.filename])
  {
    cleanupErr := None;
    err := e;
    if e.Some? {
      if f != null {
        cleanupErr := f.Cleanup();
      }
      return;
    }
    var re;
    re, cleanupErr := ReplaceThenCleanup(f);
    if re.Some? {
      err := Some(ReplaceFailed(re.value));
    }
  }

  /** How readFile's loop variables tf, tc and the prefix hold the parse state st. */
  ghost predicate Holds(st: ParseState, tf: TestFile, tc: TestCase?, prefix: seq<string>)
    reads tf, tf.cases, tc
  {
    && tf.Valid() && tf.suffix == []
    && st.cases == tf.Values()
    && (tc == null <==> st.mode == BeforeFirstCommand)
    && (tc == null ==> tf.cases == [] && st.current == NoCase && st.prefix == prefix)
    && (tc != null ==> tc !in tf.cases && st.current == tc.Value() && st.prefix == [])
  }

  /** readFile, on the lines bufio.Scanner yields: the file's cases, or the first
      bad line before the first command. */
  method ReadFile(filename: string, lines: seq<string>) returns (r: Result<TestFile, ParseError>)
    ensures r.Ok? ==> fresh(r.value) && r.value.filename == filename && r.value.Valid()
    ensures r.Ok? ==> Parse(lines) == Ok(r.value.Contents())
    ensures r.Err? ==> Parse(lines) == Err(r.error)
  {
    var tf := new TestFile(filename);
    var tc: TestCase? := null;
    var lineno := 0;
    var prefix: seq<string> := [];
    var state := BeforeFirstCommand;
    ghost var st := Initial;
    while lineno < |lines|
      invariant 0 <= lineno <= |lines|
      invariant fresh(tf) && tf.filename == filename
      invariant tc != null ==> fresh(tc)
      invariant ParseUpTo(lines, lineno) == Ok(st)
      invariant st.mode == state && Holds(st, tf, tc, prefix)
    {
      ParseUpToNext(lines, lineno, st);
      var line := lines[lineno];
      lineno := lineno + 1;
      var bad;
      tc, state, prefix, bad := ReadLine(tf, tc, state, prefix, lineno, line, st);
      if bad.Some? {
        ParseUpToStops(lines, lineno);
        return Err(bad.value);
      }
      st := Step(st, lineno, line).value;
    }
    assert Parse(lines) == Ok(Finish(st));
    Close(tf, tc, prefix, st);
    return Ok(tf);
  }

  /** The body of readFile's loop: line number lineno read in state st. */
  method ReadLine(tf: TestFile, tc: TestCase?, state: Mode, prefix: seq<string>, lineno: int, line: string, ghost st: ParseState)
    returns (tc': TestCase?, state': Mode, prefix': seq<string>, bad: Option<ParseError>)
    requires st.mode == state && Holds(st, tf, tc, prefix)
    modifies tf, tc
    ensures bad.Some? <==> Step(st, lineno, line).Err?
    ensures bad.Some? ==> Step(st, lineno, line) == Err(bad.value)
    ensures bad.None? ==> state' == Step(st, lineno, line).value.mode && Holds(Step(st, lineno, line).value, tf, tc', prefix')
    ensures tc' == tc || fresh(tc')
    ensures tf.cases == old(tf.cases) || tf.cases == old(tf.cases) + [tc]
  {
    tc', state', prefix', bad := tc, state, prefix, None;
    var isCommand := |line| > 0 && line[0] == '$';
    match state
    case BeforeFirstCommand =>
      if isCommand {
        tc' := new TestCase(lineno, prefix);
        tc'.AddCommandLine(line);
        state' := InCommands;
        prefix' := [];
      } else {
        var t := TrimSpace(line);
        if t == "" || t[0] == '#' {
          prefix' := prefix + [t];
        } else {
          bad := Some(BadLine(lineno, t));
        }
      }
    case InCommands =>
      if isCommand {
        tc.AddCommandLine(line);
      } else {
        tc.wantOutput := tc.wantOutput + [line];
        state' := InOutput;
      }
    case InOutput =>
      tc', state', prefix', bad := ReadOutputLine(tf, tc, prefix, lineno, line, st);
  }

  /** The pass of readFile's loop in state inOutput: a '$' line stores the case and
      opens the next, any other line joins the output. */
  method ReadOutputLine(tf: TestFile, tc: TestCase?, prefix: seq<string>, lineno: int, line: string, ghost st: ParseState)
    returns (tc': TestCase?, state': Mode, prefix': seq<string>, bad: Option<ParseError>)
    requires st.mode == InOutput && Holds(st, tf, tc, prefix)
    modifies tf, tc
    ensures bad.None? && Step(st, lineno, line).Ok?
    ensures state' == Step(st, lineno, line).value.mode && Holds(Step(st, lineno, line).value, tf, tc', prefix')
    ensures tc' == tc || fresh(tc')
    ensures tf.cases == old(tf.cases) || tf.cases == old(tf.cases) + [tc]
  {
    tc', state', prefix', bad := tc, InOutput, prefix, None;
    if |line| > 0 && line[0] == '$' {
      var cut := tf.AddCase(tc);
      tc' := new TestCase(lineno, cut);
      tc'.AddCommandLine(line);
      state' := InCommands;
    } else {
      tc.wantOutput := tc.wantOutput + [line];
    }
  }

  /** The end of readFile: the open case, if any, is stored, and the lines it cut off
      are the file's suffix. */
  method Close(tf: TestFile, tc: TestCase?, ghost prefix: seq<string>, ghost st: ParseState)
    requires Holds(st, tf, tc, prefix)
    modifies tf, tc
    ensures tf.Valid() && tf.Contents() == Finish(st)
    ensures tf.cases == old(tf.cases) || tf.cases == old(tf.cases) + [tc]
  {
    if tc != null {
      tf.suffix := tf.AddCase(tc);
      ghost var split := SplitOutput(st.current.wantOutput);
      assert tc.Value() == st.current.(wantOutput := split.0);
      assert tf.Values() == st.cases + [st.current.(wantOutput := split.0)];
    } else {
      assert tf.Values() == [];
    }
  }
}
