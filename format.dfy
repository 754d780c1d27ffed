/** The test-file language as values: how a file's lines become test cases (the line
    machine of readFile, addCommandLine and addCase, cmdtest.go:194-290) and how the
    cases are written back (testFile.write, testCase.write, writeCommands and
    writeLines, cmdtest.go:702-744). A file is given as the lines bufio.Scanner
    yields: without their line terminators. The classes of module CmdTest compute
    these functions step by step. */
module Format {
  import opened Wrappers
  import opened Text

  /** One test case: the ignorable lines before it, the 1-based line of its first
      command, its commands without the leading '$', the output the file expects and
      the output the last run produced (None: no run, or no output). */
  datatype Case = Case(before: seq<string>, startLine: int, commands: seq<string>,
                       wantOutput: seq<string>, gotOutput: Option<seq<string>>)

  /** A parsed file: its cases and the ignorable lines after the last one. */
  datatype File = File(cases: seq<Case>, suffix: seq<string>)

  /** A line before the first command that is neither blank nor a comment. */
  datatype ParseError = BadLine(lineno: int, line: string)

  predicate IsCommand(line: string) {
    |line| > 0 && line[0] == '$'
  }

  /** addCommandLine: the command is the rest of the line, trimmed. */
  function CommandText(line: string): string
    requires IsCommand(line)
  {
    TrimSpace(line[1..])
  }

  /** Blank and comment lines, which end a case's output. */
  predicate Ignorable(line: string) {
    line == [] || line[0] == '#'
  }

  // ----- addCase -----

  /** The index of the first of the ignorable lines that out ends with. */
  function TrailingStart(out: seq<string>): (i: nat)
    ensures i <= |out|
    ensures forall k | i <= k < |out| :: Ignorable(out[k])
    ensures i == 0 || !Ignorable(out[i - 1])
  {
    if |out| == 0 || !Ignorable(out[|out| - 1]) then |out| else TrailingStart(out[..|out| - 1])
  }

  /** Splitting an output at TrailingStart keeps every line, keeps nothing that ends in
      an ignorable line, and sets aside only ignorable lines; no other split does so. */
  lemma TrailingStartUnique(out: seq<string>, i: nat)
    requires i <= |out|
    requires forall k | i <= k < |out| :: Ignorable(out[k])
    requires i == 0 || !Ignorable(out[i - 1])
    ensures i == TrailingStart(out)
  {
  }

  /** What addCase stores and returns: the case with its output cut at TrailingStart,
      and the ignorable lines it cut off. */
  function SplitOutput(out: seq<string>): (r: (seq<string>, seq<string>))
    ensures r.0 + r.1 == out
    ensures r.0 == [] || !Ignorable(r.0[|r.0| - 1])
    ensures forall l | l in r.1 :: Ignorable(l)
  {
    var i := TrailingStart(out);
    assert out[..i] + out[i..] == out;
    (out[..i], out[i..])
  }

  // ----- readFile -----

  datatype Mode = BeforeFirstCommand | InCommands | InOutput

  /** readFile's loop variables: the state, the cases closed so far, the open case tc
      (meaningless before the first command) and the ignorable lines seen before it. */
  datatype ParseState = ParseState(mode: Mode, cases: seq<Case>, current: Case, prefix: seq<string>)

  const NoCase: Case := Case([], 0, [], [], None)

  const Initial: ParseState := ParseState(BeforeFirstCommand, [], NoCase, [])

  /** A case opened by its first command line. */
  function OpenCase(lineno: int, before: seq<string>, line: string): Case
    requires IsCommand(line)
  {
    Case(before, lineno, [CommandText(line)], [], None)
  }

  /** One line, number lineno, read in state st. */
  function Step(st: ParseState, lineno: int, line: string): Result<ParseState, ParseError> {
    match st.mode
    case BeforeFirstCommand =>
      if IsCommand(line) then Ok(ParseState(InCommands, st.cases, OpenCase(lineno, st.prefix, line), []))
      else
        var t := TrimSpace(line);
        if Ignorable(t) then Ok(st.(prefix := st.prefix + [t])) else Err(BadLine(lineno, t))
    case InCommands =>
      if IsCommand(line) then Ok(st.(current := st.current.(commands := st.current.commands + [CommandText(line)])))
      else Ok(st.(mode := InOutput, current := st.current.(wantOutput := st.current.wantOutput + [line])))
    case InOutput =>
      if IsCommand(line) then
        var (keep, suffix) := SplitOutput(st.current.wantOutput);
        Ok(ParseState(InCommands, st.cases + [st.current.(wantOutput := keep)], OpenCase(lineno, suffix, line), []))
      else Ok(st.(current := st.current.(wantOutput := st.current.wantOutput + [line])))
  }

  /** The state after the first n lines, or the error that stopped the loop. */
  function ParseUpTo(lines: seq<string>, n: nat): Result<ParseState, ParseError>
    requires n <= |lines|
  {
    if n == 0 then Ok(Initial)
    else match ParseUpTo(lines, n - 1)
      case Err(e) => Err(e)
      case Ok(st) => Step(st, n, lines[n - 1])
  }

  /** After the last line: the open case, if any, is closed and what it cuts off is
      the file's suffix. A file without commands has neither cases nor suffix. */
  function Finish(st: ParseState): File {
    if st.mode == BeforeFirstCommand then File([], [])
    else
      var (keep, suffix) := SplitOutput(st.current.wantOutput);
      File(st.cases + [st.current.(wantOutput := keep)], suffix)
  }

  function Parse(lines: seq<string>): Result<File, ParseError> {
    match ParseUpTo(lines, |lines|)
    case Err(e) => Err(e)
    case Ok(st) => Ok(Finish(st))
  }

  // ----- write -----

  /** writeCommands */
  function CommandLines(cmds: seq<string>): (r: seq<string>)
    ensures |r| == |cmds| && forall k | 0 <= k < |cmds| :: r[k] == "$ " + cmds[k]
  {
    if |cmds| == 0 then [] else CommandLines(cmds[..|cmds| - 1]) + ["$ " + cmds[|cmds| - 1]]
  }

  /** The output testCase.write writes: the last run's, if it produced any. */
  function OutputOf(c: Case): seq<string> {
    match c.gotOutput
    case Some(got) => got
    case None => c.wantOutput
  }

  /** testCase.write */
  function WriteCase(c: Case): seq<string> {
    c.before + CommandLines(c.commands) + OutputOf(c)
  }

  function WriteCases(cases: seq<Case>): seq<string> {
    if |cases| == 0 then [] else WriteCases(cases[..|cases| - 1]) + WriteCase(cases[|cases| - 1])
  }

  /** testFile.write, as the lines it writes. */
  function WriteFile(f: File): seq<string> {
    WriteCases(f.cases) + f.suffix
  }

  /** writeLines: every line followed by a newline. */
  function Render(lines: seq<string>): (r: string)
    ensures |lines| > 0 ==> |r| > 0 && r[|r| - 1] == '\n'
  {
    if |lines| == 0 then [] else Render(lines[..|lines| - 1]) + lines[|lines| - 1] + "\n"
  }

  // ----- what readFile guarantees -----

  /** The index of the first command line, or |lines|. */
  function FirstCommand(lines: seq<string>): (i: nat)
    ensures i <= |lines|
    ensures forall k | 0 <= k < i :: !IsCommand(lines[k])
    ensures i < |lines| ==> IsCommand(lines[i])
  {
    if |lines| == 0 || IsCommand(lines[0]) then 0 else 1 + FirstCommand(lines[1..])
  }

  /** The commands of c are those of consecutive '$' lines of the file, the first on
      line c.startLine (1-based), each with the '$' removed and trimmed; the lines it
      was given before are ignorable, its expected output holds no '$' line, and no
      run has filled in its output. */
  ghost predicate CaseOfLines(lines: seq<string>, c: Case) {
    && |c.commands| >= 1 && 1 <= c.startLine && c.startLine - 1 + |c.commands| <= |lines|
    && CommandBlock(lines, c) && StartsBlock(lines, c)
    && (forall l | l in c.before :: Ignorable(l))
    && (forall l | l in c.wantOutput :: !IsCommand(l))
    && c.gotOutput.None?
  }

  /** No '$' line comes right before c's first command. */
  ghost predicate StartsBlock(lines: seq<string>, c: Case)
    requires 1 <= c.startLine <= |lines| + 1
  {
    c.startLine == 1 || !IsCommand(lines[c.startLine - 2])
  }

  /** No '$' line comes right after c's last command: its commands are a maximal run. */
  ghost predicate EndsBlock(lines: seq<string>, c: Case)
    requires 0 <= c.startLine - 1 + |c.commands| <= |lines|
  {
    c.startLine - 1 + |c.commands| == |lines| || !IsCommand(lines[c.startLine - 1 + |c.commands|])
  }

  /** The first case of a file starts on the first command line, and the lines before
      it are the lines above that one, trimmed. */
  ghost predicate OpensFile(lines: seq<string>, c: Case) {
    && c.startLine == FirstCommand(lines) + 1 && |c.before| == FirstCommand(lines)
    && forall k | 0 <= k < |c.before| :: c.before[k] == TrimSpace(lines[k])
  }

  /** The lines of c's commands are '$' lines and its commands are their texts. */
  ghost predicate CommandBlock(lines: seq<string>, c: Case)
    requires 1 <= c.startLine && c.startLine - 1 + |c.commands| <= |lines|
  {
    var block := lines[c.startLine - 1..c.startLine - 1 + |c.commands|];
    AllCommands(block) && c.commands == CommandTexts(block)
  }

  predicate AllCommands(block: seq<string>) {
    forall l | l in block :: IsCommand(l)
  }

  /** The commands of a block of '$' lines. */
  function CommandTexts(block: seq<string>): (r: seq<string>)
    requires AllCommands(block)
    ensures |r| == |block|
  {
    if |block| == 0 then [] else CommandTexts(block[..|block| - 1]) + [CommandText(block[|block| - 1])]
  }

  /** A closed case: its expected output is empty or ends in a significant line. */
  ghost predicate StoredCase(lines: seq<string>, c: Case) {
    && CaseOfLines(lines, c) && EndsBlock(lines, c)
    && (c.wantOutput == [] || !Ignorable(c.wantOutput[|c.wantOutput| - 1]))
  }

  ghost predicate AllStored(lines: seq<string>, cases: seq<Case>) {
    forall c | c in cases :: StoredCase(lines, c)
  }

  /** The 1-based number of the line after c's commands and expected output. */
  function CaseEnd(c: Case): int {
    c.startLine + |c.commands| + |c.wantOutput|
  }

  /** The cases tile the file: each starts right after the previous one's commands
      and output and its own before lines. */
  ghost predicate Tiled(cs: seq<Case>) {
    forall i | 0 < i < |cs| :: cs[i].startLine == CaseEnd(cs[i - 1]) + |cs[i].before|
  }

  /** A line before the first command that is neither blank nor a comment once trimmed. */
  ghost predicate BadLineAt(lines: seq<string>, k: int) {
    0 <= k < FirstCommand(lines) && !Ignorable(TrimSpace(lines[k]))
  }

  /** What holds of readFile's variables after n lines. */
  ghost predicate Reachable(lines: seq<string>, n: nat, st: ParseState)
    requires n <= |lines|
  {
    if st.mode == BeforeFirstCommand then
      && st.cases == [] && n <= FirstCommand(lines) && |st.prefix| == n
      && forall k | 0 <= k < n :: st.prefix[k] == TrimSpace(lines[k]) && Ignorable(st.prefix[k])
    else
      && FirstCommand(lines) < n
      && AllStored(lines, st.cases)
      && CaseOfLines(lines, st.current) && CaseEnd(st.current) == n + 1
      && Tiled(st.cases + [st.current])
      && (st.mode == InCommands ==> st.current.wantOutput == [])
      && (st.mode == InOutput ==> !IsCommand(lines[n - 1]) && EndsBlock(lines, st.current))
      && OpensFile(lines, if st.cases == [] then st.current else st.cases[0])
  }

  /** The loop invariant of readFile. */
  lemma {:induction false} ParseUpToReachable(lines: seq<string>, n: nat)
    requires n <= |lines|
    ensures ParseUpTo(lines, n).Ok? ==> Reachable(lines, n, ParseUpTo(lines, n).value)
  {
    if n > 0 {
      ParseUpToReachable(lines, n - 1);
      if ParseUpTo(lines, n - 1).Ok? {
        var st := ParseUpTo(lines, n - 1).value;
        var line := lines[n - 1];
        assert ParseUpTo(lines, n) == Step(st, n, line);
        if IsCommand(line) {
          match st.mode
          case BeforeFirstCommand => StepOpensCase(lines, n, st);
          case InCommands => StepAddsCommand(lines, n, st);
          case InOutput => StepClosesCase(lines, n, st);
        } else {
          StepAddsOutput(lines, n, st);
        }
      }
    }
  }

  /** Line n + 1 is read in the state the first n lines left. */
  lemma ParseUpToNext(lines: seq<string>, n: nat, st: ParseState)
    requires n < |lines| && ParseUpTo(lines, n) == Ok(st)
    ensures ParseUpTo(lines, n + 1) == Step(st, n + 1, lines[n])
  {
  }

  /** Once a line stops the loop, the file is rejected with that line's error. */
  lemma {:induction false} ParseUpToStops(lines: seq<string>, n: nat)
    requires n <= |lines| && ParseUpTo(lines, n).Err?
    ensures Parse(lines) == Err(ParseUpTo(lines, n).error)
    decreases |lines| - n
  {
    if n < |lines| {
      assert ParseUpTo(lines, n + 1) == ParseUpTo(lines, n);
      ParseUpToStops(lines, n + 1);
    }
  }

  /** readFile fails exactly when a line before the first command is neither blank
      nor a comment, and it names the first such line. */
  lemma {:induction false} ParseUpToError(lines: seq<string>, n: nat)
    requires n <= |lines|
    ensures ParseUpTo(lines, n).Err? <==> exists k | 0 <= k < n :: BadLineAt(lines, k)
    ensures ParseUpTo(lines, n).Err? ==> exists k | 0 <= k < n ::
      && BadLineAt(lines, k) && (forall m | 0 <= m < k :: !BadLineAt(lines, m))
      && ParseUpTo(lines, n).error == BadLine(k + 1, TrimSpace(lines[k]))
  {
    if n > 0 {
      ParseUpToError(lines, n - 1);
      if ParseUpTo(lines, n - 1).Err? {
        ErrorCarried(lines, n);
      } else {
        ErrorArises(lines, n);
      }
    }
  }

  /** The two ensures of ParseUpToError, after n lines. */
  ghost predicate FailsAtFirstBadLine(lines: seq<string>, n: nat)
    requires n <= |lines|
  {
    && (ParseUpTo(lines, n).Err? <==> exists k | 0 <= k < n :: BadLineAt(lines, k))
    && (ParseUpTo(lines, n).Err? ==> exists k | 0 <= k < n ::
      && BadLineAt(lines, k) && (forall m | 0 <= m < k :: !BadLineAt(lines, m))
      && ParseUpTo(lines, n).error == BadLine(k + 1, TrimSpace(lines[k])))
  }

  /** An error already met is kept, and so is the first bad line it names. */
  lemma ErrorCarried(lines: seq<string>, n: nat)
    requires 0 < n <= |lines| && FailsAtFirstBadLine(lines, n - 1) && ParseUpTo(lines, n - 1).Err?
    ensures FailsAtFirstBadLine(lines, n)
  {
    var prev := ParseUpTo(lines, n - 1);
    assert ParseUpTo(lines, n) == prev;
    var k :| 0 <= k < n - 1 && BadLineAt(lines, k) && (forall m | 0 <= m < k :: !BadLineAt(lines, m))
      && prev.error == BadLine(k + 1, TrimSpace(lines[k]));
    assert BadLineAt(lines, k);
  }

  /** Without an error so far, line n stops the parse iff it is the first bad line. */
  lemma ErrorArises(lines: seq<string>, n: nat)
    requires 0 < n <= |lines| && FailsAtFirstBadLine(lines, n - 1) && ParseUpTo(lines, n - 1).Ok?
    ensures FailsAtFirstBadLine(lines, n)
  {
    var st := ParseUpTo(lines, n - 1).value;
    ParseUpToFits(lines, n - 1);
    StepError(lines, n, st);
    assert ParseUpTo(lines, n) == Step(st, n, lines[n - 1]);
    assert forall m | 0 <= m < n - 1 :: !BadLineAt(lines, m);
    if BadLineAt(lines, n - 1) {
      assert ParseUpTo(lines, n).error == BadLine(n - 1 + 1, TrimSpace(lines[n - 1]));
    } else {
      assert forall m | 0 <= m < n :: !BadLineAt(lines, m);
    }
  }

  /** Before the first command readFile is still looking for it; after, it is not. */
  ghost predicate ModeFits(lines: seq<string>, n: nat, st: ParseState) {
    if st.mode == BeforeFirstCommand then n <= FirstCommand(lines) else FirstCommand(lines) < n
  }

  lemma ParseUpToFits(lines: seq<string>, n: nat)
    requires n <= |lines| && ParseUpTo(lines, n).Ok?
    ensures ModeFits(lines, n, ParseUpTo(lines, n).value)
  {
    ParseUpToReachable(lines, n);
  }

  /** Reading line n stops the parse iff that line is a bad one before the first command. */
  lemma StepError(lines: seq<string>, n: nat, st: ParseState)
    requires 0 < n <= |lines| && ModeFits(lines, n - 1, st)
    ensures Step(st, n, lines[n - 1]).Err? <==> BadLineAt(lines, n - 1)
    ensures Step(st, n, lines[n - 1]).Err? ==> Step(st, n, lines[n - 1]).error == BadLine(n, TrimSpace(lines[n - 1]))
  {
    if st.mode == BeforeFirstCommand && !IsCommand(lines[n - 1]) {
      assert n - 1 < FirstCommand(lines);
    }
  }

  /** A line that is not a command keeps the parse going (or stops it, before the
      first command, when it is not ignorable once trimmed). */
  lemma StepAddsOutput(lines: seq<string>, n: nat, st: ParseState)
    requires 0 < n <= |lines| && Reachable(lines, n - 1, st)
    requires !IsCommand(lines[n - 1])
    ensures Step(st, n, lines[n - 1]).Ok? ==> Reachable(lines, n, Step(st, n, lines[n - 1]).value)
  {
    match st.mode
    case BeforeFirstCommand => StepAddsPrefix(lines, n, st);
    case _ => StepAddsOutputLine(lines, n, st);
  }

  lemma StepAddsPrefix(lines: seq<string>, n: nat, st: ParseState)
    requires 0 < n <= |lines| && Reachable(lines, n - 1, st) && st.mode == BeforeFirstCommand
    requires !IsCommand(lines[n - 1])
    ensures Step(st, n, lines[n - 1]).Ok? ==> Reachable(lines, n, Step(st, n, lines[n - 1]).value)
  {
    var t := TrimSpace(lines[n - 1]);
    if Ignorable(t) {
      var p := st.prefix + [t];
      assert Step(st, n, lines[n - 1]) == Ok(st.(prefix := p));
      assert n - 1 < FirstCommand(lines);
      forall k | 0 <= k < n
        ensures p[k] == TrimSpace(lines[k]) && Ignorable(p[k])
      {
        if k < n - 1 { assert p[k] == st.prefix[k]; } else { assert p[k] == t; }
      }
    }
  }

  lemma StepAddsOutputLine(lines: seq<string>, n: nat, st: ParseState)
    requires 0 < n <= |lines| && Reachable(lines, n - 1, st) && st.mode != BeforeFirstCommand
    requires !IsCommand(lines[n - 1])
    ensures Step(st, n, lines[n - 1]).Ok? && Reachable(lines, n, Step(st, n, lines[n - 1]).value)
    ensures var next := Step(st, n, lines[n - 1]).value;
      && next.mode == InOutput && next.cases == st.cases
      && next.current == st.current.(wantOutput := st.current.wantOutput + [lines[n - 1]])
  {
    var line := lines[n - 1];
    var c := st.current;
    assert CaseOfLines(lines, c);
    var c' := c.(wantOutput := c.wantOutput + [line]);
    SameBlock(lines, c, c');
    TiledLast(st.cases, c, c');
    assert Step(st, n, line) == Ok(st.(mode := InOutput, current := c'));
  }

  /** Changing the last case's commands or output keeps the cases tiled. */
  lemma TiledLast(cs: seq<Case>, c: Case, d: Case)
    requires Tiled(cs + [c]) && d.startLine == c.startLine && d.before == c.before
    ensures Tiled(cs + [d])
  {
    forall i | 0 < i < |cs + [d]| ensures (cs + [d])[i].startLine == CaseEnd((cs + [d])[i - 1]) + |(cs + [d])[i].before| {
      assert (cs + [c])[i].startLine == CaseEnd((cs + [c])[i - 1]) + |(cs + [c])[i].before|;
      if i < |cs| { assert (cs + [d])[i] == (cs + [c])[i]; }
      assert (cs + [d])[i - 1] == (cs + [c])[i - 1];
    }
  }

  /** A case that starts right after the last one and its own before lines keeps the
      cases tiled. */
  lemma TiledAppend(cs: seq<Case>, d: Case)
    requires Tiled(cs) && (cs == [] || d.startLine == CaseEnd(cs[|cs| - 1]) + |d.before|)
    ensures Tiled(cs + [d])
  {
    forall i | 0 < i < |cs + [d]| ensures (cs + [d])[i].startLine == CaseEnd((cs + [d])[i - 1]) + |(cs + [d])[i].before| {
      if i < |cs| { assert (cs + [d])[i] == cs[i] && (cs + [d])[i - 1] == cs[i - 1]; }
    }
  }

  /** Whether a case is a command block depends only on its start line and commands. */
  lemma SameBlock(lines: seq<string>, c: Case, d: Case)
    requires 1 <= c.startLine && c.startLine - 1 + |c.commands| <= |lines|
    requires d.startLine == c.startLine && d.commands == c.commands
    ensures CommandBlock(lines, d) == CommandBlock(lines, c)
  {
  }

  /** A case opened by the command on line n, after ignorable lines. */
  lemma OpenedCase(lines: seq<string>, n: nat, before: seq<string>)
    requires 0 < n <= |lines| && IsCommand(lines[n - 1]) && (n == 1 || !IsCommand(lines[n - 2]))
    requires forall l | l in before :: Ignorable(l)
    ensures CaseOfLines(lines, OpenCase(n, before, lines[n - 1]))
  {
    assert lines[n - 1..n] == [lines[n - 1]];
  }

  /** addCase turns an open case into a stored one. */
  lemma ClosedCase(lines: seq<string>, c: Case)
    requires CaseOfLines(lines, c) && EndsBlock(lines, c)
    ensures StoredCase(lines, c.(wantOutput := SplitOutput(c.wantOutput).0))
    ensures forall l | l in SplitOutput(c.wantOutput).1 :: Ignorable(l)
  {
    SameBlock(lines, c, c.(wantOutput := SplitOutput(c.wantOutput).0));
  }

  lemma StepOpensCase(lines: seq<string>, n: nat, st: ParseState)
    requires 0 < n <= |lines| && Reachable(lines, n - 1, st) && st.mode == BeforeFirstCommand
    requires IsCommand(lines[n - 1])
    ensures Step(st, n, lines[n - 1]).Ok? && Reachable(lines, n, Step(st, n, lines[n - 1]).value)
  {
    var c := OpenCase(n, st.prefix, lines[n - 1]);
    assert Step(st, n, lines[n - 1]) == Ok(ParseState(InCommands, [], c, []));
    FirstCase(lines, n, st.prefix);
    assert [] + [c] == [c];
  }

  /** The first command line opens the file's first case. */
  lemma FirstCase(lines: seq<string>, n: nat, prefix: seq<string>)
    requires 0 < n <= |lines| && IsCommand(lines[n - 1]) && n - 1 <= FirstCommand(lines)
    requires |prefix| == n - 1
    requires forall k | 0 <= k < n - 1 :: prefix[k] == TrimSpace(lines[k]) && Ignorable(prefix[k])
    ensures FirstCommand(lines) < n
    ensures CaseOfLines(lines, OpenCase(n, prefix, lines[n - 1]))
    ensures OpensFile(lines, OpenCase(n, prefix, lines[n - 1]))
  {
    PrefixIgnorable(lines, n, prefix);
    FirstCommandAtMost(lines, n - 1);
    OpenedCase(lines, n, prefix);
    OpensAt(lines, n, prefix);
  }

  /** A '$' line at or before the first command is the first command. */
  lemma FirstCommandAtMost(lines: seq<string>, i: nat)
    requires i < |lines| && IsCommand(lines[i]) && i <= FirstCommand(lines)
    ensures FirstCommand(lines) == i
  {
  }

  /** The case opened on the first command line, after the trimmed lines above it. */
  lemma OpensAt(lines: seq<string>, n: nat, prefix: seq<string>)
    requires 0 < n <= |lines| && FirstCommand(lines) == n - 1 && |prefix| == n - 1
    requires forall k | 0 <= k < n - 1 :: prefix[k] == TrimSpace(lines[k])
    ensures OpensFile(lines, OpenCase(n, prefix, lines[n - 1]))
  {
  }

  /** The lines collected before the first command are all ignorable. */
  lemma PrefixIgnorable(lines: seq<string>, n: nat, prefix: seq<string>)
    requires 0 < n <= |lines| && |prefix| == n - 1
    requires forall k | 0 <= k < n - 1 :: prefix[k] == TrimSpace(lines[k]) && Ignorable(prefix[k])
    ensures forall l | l in prefix :: Ignorable(l)
  {
    forall l | l in prefix ensures Ignorable(l) {
      var k :| 0 <= k < |prefix| && prefix[k] == l;
    }
  }

  lemma StepAddsCommand(lines: seq<string>, n: nat, st: ParseState)
    requires 0 < n <= |lines| && Reachable(lines, n - 1, st) && st.mode == InCommands
    requires IsCommand(lines[n - 1])
    ensures Step(st, n, lines[n - 1]).Ok? && Reachable(lines, n, Step(st, n, lines[n - 1]).value)
  {
    var c := st.current;
    var c' := c.(commands := c.commands + [CommandText(lines[n - 1])]);
    assert Step(st, n, lines[n - 1]) == Ok(st.(current := c'));
    ExtendedBlock(lines, n, c);
    TiledLast(st.cases, c, c');
    assert OpensFile(lines, if st.cases == [] then c' else st.cases[0]);
  }

  /** The command on line n, right after c's last one, joins c's block. */
  lemma ExtendedBlock(lines: seq<string>, n: nat, c: Case)
    requires 0 < n <= |lines| && IsCommand(lines[n - 1])
    requires CaseOfLines(lines, c) && c.startLine - 1 + |c.commands| == n - 1
    ensures CaseOfLines(lines, c.(commands := c.commands + [CommandText(lines[n - 1])]))
  {
    var a := c.startLine - 1;
    assert lines[a..n] == lines[a..n - 1] + [lines[n - 1]];
    BlockGrows(lines[a..n - 1], lines[n - 1]);
  }

  lemma BlockGrows(block: seq<string>, line: string)
    requires AllCommands(block) && IsCommand(line)
    ensures AllCommands(block + [line])
    ensures CommandTexts(block + [line]) == CommandTexts(block) + [CommandText(line)]
  {
    assert (block + [line])[..|block|] == block;
  }

  lemma StepClosesCase(lines: seq<string>, n: nat, st: ParseState)
    requires 0 < n <= |lines| && Reachable(lines, n - 1, st) && st.mode == InOutput
    requires IsCommand(lines[n - 1])
    ensures Step(st, n, lines[n - 1]).Ok? && Reachable(lines, n, Step(st, n, lines[n - 1]).value)
    ensures var next := Step(st, n, lines[n - 1]).value;
      && next.cases == st.cases + [st.current.(wantOutput := SplitOutput(st.current.wantOutput).0)]
      && next.current.startLine == n && next.current.before == SplitOutput(st.current.wantOutput).1
  {
    var c := st.current;
    var r := SplitOutput(c.wantOutput);
    assert Step(st, n, lines[n - 1]) ==
      Ok(ParseState(InCommands, st.cases + [c.(wantOutput := r.0)], OpenCase(n, r.1, lines[n - 1]), []));
    ClosedReachable(lines, n, st.cases, c);
  }

  /** The state after a command line closes case c: c stored with its kept output, and
      the next case opened on line n with the cut-off lines before it. */
  lemma ClosedReachable(lines: seq<string>, n: nat, cases: seq<Case>, c: Case)
    requires 1 < n <= |lines| && IsCommand(lines[n - 1]) && !IsCommand(lines[n - 2])
    requires FirstCommand(lines) < n - 1 && AllStored(lines, cases)
    requires CaseOfLines(lines, c) && EndsBlock(lines, c) && CaseEnd(c) == n
    requires Tiled(cases + [c]) && OpensFile(lines, if cases == [] then c else cases[0])
    ensures var r := SplitOutput(c.wantOutput);
      Reachable(lines, n, ParseState(InCommands, cases + [c.(wantOutput := r.0)], OpenCase(n, r.1, lines[n - 1]), []))
  {
    var r := SplitOutput(c.wantOutput);
    var stored := c.(wantOutput := r.0);
    var next := OpenCase(n, r.1, lines[n - 1]);
    var cs := cases + [stored];
    ClosedCase(lines, c);
    OpenedCase(lines, n, r.1);
    StoredAppend(lines, cases, stored);
    NextCaseTiled(cases, c, n, lines[n - 1]);
    FirstStillOpens(lines, cases, c, stored);
  }

  /** Whether a case opens the file depends only on its start line and before lines. */
  lemma FirstStillOpens(lines: seq<string>, cases: seq<Case>, c: Case, d: Case)
    requires OpensFile(lines, if cases == [] then c else cases[0])
    requires d.startLine == c.startLine && d.before == c.before
    ensures OpensFile(lines, (cases + [d])[0])
  {
    if cases == [] { assert (cases + [d])[0] == d; } else { assert (cases + [d])[0] == cases[0]; }
  }

  /** The case closed by the command on line n, and the one that command opens, keep
      the cases tiled. */
  lemma NextCaseTiled(cs: seq<Case>, c: Case, n: nat, line: string)
    requires IsCommand(line) && Tiled(cs + [c]) && CaseEnd(c) == n
    ensures var r := SplitOutput(c.wantOutput);
      Tiled(cs + [c.(wantOutput := r.0)] + [OpenCase(n, r.1, line)])
  {
    var r := SplitOutput(c.wantOutput);
    var stored := c.(wantOutput := r.0);
    TiledLast(cs, c, stored);
    assert (cs + [stored])[|cs + [stored]| - 1] == stored;
    TiledAppend(cs + [stored], OpenCase(n, r.1, line));
  }

  lemma StoredAppend(lines: seq<string>, cases: seq<Case>, c: Case)
    requires AllStored(lines, cases) && StoredCase(lines, c)
    ensures AllStored(lines, cases + [c])
  {
    forall d | d in cases + [c] ensures StoredCase(lines, d) {
      if d != c { assert d in cases; }
    }
  }

  // ----- readFile, as a whole -----

  /** What readFile returns for a file it accepts: every case has at least one
      command, taken from consecutive '$' lines starting on its startLine, its
      expected output holds no '$' line and is empty or ends in a significant line, the lines before it and
      the file's suffix are blank or comments, and there are cases iff there are
      command lines. */
  lemma ParseAccepted(lines: seq<string>)
    requires Parse(lines).Ok?
    ensures forall c | c in Parse(lines).value.cases :: StoredCase(lines, c)
    ensures forall l | l in Parse(lines).value.suffix :: Ignorable(l)
    ensures Parse(lines).value.cases == [] <==> FirstCommand(lines) == |lines|
    ensures Parse(lines).value.cases != [] ==> OpensFile(lines, Parse(lines).value.cases[0])
    ensures Tiled(Parse(lines).value.cases)
    ensures var f := Parse(lines).value;
      f.cases != [] ==> CaseEnd(f.cases[|f.cases| - 1]) - 1 + |f.suffix| == |lines|
  {
    ParseUpToReachable(lines, |lines|);
    var st := ParseUpTo(lines, |lines|).value;
    assert Parse(lines).value == Finish(st);
    if st.mode != BeforeFirstCommand {
      FinishStored(lines, st);
    }
  }

  /** Closing the open case at the end of the file stores it with the others. */
  lemma FinishStored(lines: seq<string>, st: ParseState)
    requires Reachable(lines, |lines|, st) && st.mode != BeforeFirstCommand
    ensures AllStored(lines, Finish(st).cases)
    ensures forall l | l in Finish(st).suffix :: Ignorable(l)
    ensures Finish(st).cases != [] && OpensFile(lines, Finish(st).cases[0])
    ensures Tiled(Finish(st).cases)
    ensures CaseEnd(Finish(st).cases[|Finish(st).cases| - 1]) - 1 + |Finish(st).suffix| == |lines|
  {
    var c := st.current;
    ClosedCase(lines, c);
    StoredAppend(lines, st.cases, c.(wantOutput := SplitOutput(c.wantOutput).0));
    TiledLast(st.cases, c, c.(wantOutput := SplitOutput(c.wantOutput).0));
    assert Finish(st).cases == st.cases + [c.(wantOutput := SplitOutput(c.wantOutput).0)];
  }

  /** readFile fails iff a line before the first command is, once trimmed, neither
      blank nor a comment; the error gives the first such line and its number. */
  lemma ParseRejected(lines: seq<string>)
    ensures Parse(lines).Err? <==> exists k :: BadLineAt(lines, k)
    ensures Parse(lines).Err? ==> exists k ::
      && BadLineAt(lines, k) && (forall m | 0 <= m < k :: !BadLineAt(lines, m))
      && Parse(lines).error == BadLine(k + 1, TrimSpace(lines[k]))
  {
    ParseUpToError(lines, |lines|);
  }

  /** A file without command lines has no cases, and its comments are dropped. */
  lemma ParseWithoutCommands(lines: seq<string>)
    requires FirstCommand(lines) == |lines|
    requires forall k | 0 <= k < |lines| :: Ignorable(TrimSpace(lines[k]))
    ensures Parse(lines) == Ok(File([], []))
  {
    ParseUpToError(lines, |lines|);
    ParseUpToReachable(lines, |lines|);
  }

  // ----- writing back what was read -----

  /** The line that writing gives back for line k of a file readFile accepts: before
      the first command the line trimmed, a command line as "$ " and its command, any
      other line as it is. */
  function NormalLine(lines: seq<string>, k: int): string
    requires 0 <= k < |lines|
  {
    if k < FirstCommand(lines) then TrimSpace(lines[k])
    else if IsCommand(lines[k]) then "$ " + CommandText(lines[k])
    else lines[k]
  }

  /** The lines of a file in the form write produces. */
  function NormalForm(lines: seq<string>): seq<string> {
    seq(|lines|, k requires 0 <= k < |lines| => NormalLine(lines, k))
  }

  /** Lines that write reproduces: before the first command only trimmed blank and
      comment lines, and every command line written as "$ " and its command. */
  ghost predicate Normalised(lines: seq<string>) {
    forall k | 0 <= k < |lines| :: NormalAt(lines, k)
  }

  ghost predicate NormalAt(lines: seq<string>, k: int)
    requires 0 <= k < |lines|
  {
    && (k < FirstCommand(lines) ==> Ignorable(lines[k]) && TrimSpace(lines[k]) == lines[k])
    && (IsCommand(lines[k]) ==> "$ " + CommandText(lines[k]) == lines[k])
  }

  /** The lines that writing the cases of st would produce. */
  ghost function Emitted(st: ParseState): seq<string> {
    if st.mode == BeforeFirstCommand then st.prefix
    else WriteCases(st.cases) + st.current.before + CommandLines(st.current.commands) + st.current.wantOutput
  }

  /** What the round trip needs of readFile's variables after n lines. */
  ghost predicate EmitReady(lines: seq<string>, n: nat, st: ParseState) {
    && (st.mode == BeforeFirstCommand ==> st.cases == [] && n <= FirstCommand(lines))
    && (st.mode != BeforeFirstCommand ==> FirstCommand(lines) < n)
    && st.current.gotOutput.None?
    && (st.mode == InCommands ==> st.current.wantOutput == [])
  }

  /** While readFile has met no bad line, what it has read so far is what writing its
      cases would give back, in normal form. */
  lemma {:induction false} ParseUpToEmits(lines: seq<string>, n: nat)
    requires n <= |lines| && forall k | 0 <= k < n :: !BadLineAt(lines, k)
    ensures ParseUpTo(lines, n).Ok?
    ensures EmitReady(lines, n, ParseUpTo(lines, n).value)
    ensures Emitted(ParseUpTo(lines, n).value) == NormalForm(lines)[..n]
  {
    if n > 0 {
      ParseUpToEmits(lines, n - 1);
      var st := ParseUpTo(lines, n - 1).value;
      assert ParseUpTo(lines, n) == Step(st, n, lines[n - 1]);
      TakeLast(NormalForm(lines), n);
      assert !BadLineAt(lines, n - 1);
      StepEmits(lines, n, st);
    }
  }

  lemma TakeLast(s: seq<string>, n: nat)
    requires 0 < n <= |s|
    ensures s[..n] == s[..n - 1] + [s[n - 1]]
  {
  }

  lemma StepEmits(lines: seq<string>, n: nat, st: ParseState)
    requires 0 < n <= |lines| && !BadLineAt(lines, n - 1) && EmitReady(lines, n - 1, st)
    ensures Step(st, n, lines[n - 1]).Ok?
    ensures EmitReady(lines, n, Step(st, n, lines[n - 1]).value)
    ensures Emitted(Step(st, n, lines[n - 1]).value) == Emitted(st) + [NormalLine(lines, n - 1)]
  {
    var line := lines[n - 1];
    if IsCommand(line) {
      assert NormalLine(lines, n - 1) == "$ " + CommandText(line);
      match st.mode
      case BeforeFirstCommand =>
        EmitsFirstCommand(st, n, line);
      case InCommands =>
        var c := st.current;
        assert Step(st, n, line) == Ok(st.(current := c.(commands := c.commands + [CommandText(line)])));
        EmitsCommand(st, line);
      case InOutput =>
        EmitsNextCase(st, n, line);
    } else if st.mode == BeforeFirstCommand {
      assert n - 1 < FirstCommand(lines);
      EmitsPrefix(st, n, line);
    } else {
      EmitsOutput(st, n, line);
    }
  }

  lemma EmitsFirstCommand(st: ParseState, n: nat, line: string)
    requires st.mode == BeforeFirstCommand && st.cases == [] && IsCommand(line)
    ensures Step(st, n, line).Ok? && Emitted(Step(st, n, line).value) == Emitted(st) + ["$ " + CommandText(line)]
    ensures Step(st, n, line).value.current.gotOutput.None? && Step(st, n, line).value.current.wantOutput == []
  {
    var c := OpenCase(n, st.prefix, line);
    assert Step(st, n, line) == Ok(ParseState(InCommands, [], c, []));
    assert WriteCases([]) == [];
    assert CommandLines([CommandText(line)]) == ["$ " + CommandText(line)];
    assert Emitted(ParseState(InCommands, [], c, [])) == [] + st.prefix + ["$ " + CommandText(line)] + [];
  }

  lemma EmitsPrefix(st: ParseState, n: nat, line: string)
    requires st.mode == BeforeFirstCommand && !IsCommand(line) && Ignorable(TrimSpace(line))
    ensures Step(st, n, line).Ok? && Emitted(Step(st, n, line).value) == Emitted(st) + [TrimSpace(line)]
  {
    assert Step(st, n, line) == Ok(st.(prefix := st.prefix + [TrimSpace(line)]));
  }

  lemma EmitsOutput(st: ParseState, n: nat, line: string)
    requires st.mode != BeforeFirstCommand && !IsCommand(line)
    ensures Step(st, n, line).Ok? && Emitted(Step(st, n, line).value) == Emitted(st) + [line]
  {
    var c := st.current;
    var st' := st.(mode := InOutput, current := c.(wantOutput := c.wantOutput + [line]));
    assert Step(st, n, line) == Ok(st');
    Assoc3(WriteCases(st.cases) + c.before + CommandLines(c.commands), c.wantOutput, [line]);
  }

  lemma EmitsCommand(st: ParseState, line: string)
    requires st.mode == InCommands && IsCommand(line)
    requires st.current.wantOutput == []
    ensures var c := st.current;
      Emitted(st.(current := c.(commands := c.commands + [CommandText(line)]))) == Emitted(st) + ["$ " + CommandText(line)]
  {
    var c := st.current;
    assert CommandLines(c.commands + [CommandText(line)]) == CommandLines(c.commands) + ["$ " + CommandText(line)];
  }

  lemma EmitsNextCase(st: ParseState, n: nat, line: string)
    requires st.mode == InOutput && IsCommand(line)
    requires st.current.gotOutput.None?
    ensures Step(st, n, line).Ok? && Emitted(Step(st, n, line).value) == Emitted(st) + ["$ " + CommandText(line)]
  {
    var c := st.current;
    var r := SplitOutput(c.wantOutput);
    var closed := c.(wantOutput := r.0);
    var st' := ParseState(InCommands, st.cases + [closed], OpenCase(n, r.1, line), []);
    assert Step(st, n, line) == Ok(st');
    var w := WriteCases(st.cases);
    var b := c.before;
    var l := CommandLines(c.commands);
    var x := ["$ " + CommandText(line)];
    assert CommandLines([CommandText(line)]) == x;
    assert (st.cases + [closed])[..|st.cases|] == st.cases;
    assert WriteCases(st.cases + [closed]) == w + (b + l + r.0);
    assert Emitted(st') == w + (b + l + r.0) + r.1 + x + [];
    assert Emitted(st) == w + b + l + (r.0 + r.1);
    CaseShape(w, b, l, r.0, r.1, x);
  }

  lemma CaseShape(w: seq<string>, b: seq<string>, l: seq<string>, k: seq<string>, s: seq<string>, x: seq<string>)
    ensures w + (b + l + k) + s + x + [] == w + b + l + (k + s) + x
  {
  }

  lemma Assoc3(a: seq<string>, b: seq<string>, c: seq<string>)
    ensures a + (b + c) == a + b + c
  {
  }

  /** Writing a freshly read file that has a command gives back its lines in normal
      form: the lines before the first command trimmed, each command line as "$ " and
      its command, and every other line unchanged. */
  lemma ReadWriteNormalForm(lines: seq<string>)
    requires Parse(lines).Ok? && FirstCommand(lines) < |lines|
    ensures WriteFile(Parse(lines).value) == NormalForm(lines)
  {
    ParseRejected(lines);
    ParseUpToEmits(lines, |lines|);
    var st := ParseUpTo(lines, |lines|).value;
    assert NormalForm(lines)[..|lines|] == NormalForm(lines);
    FinishEmits(st);
  }

  /** Writing a freshly read normalised file that has a command gives back its lines. */
  lemma ReadWriteRoundTrip(lines: seq<string>)
    requires Normalised(lines) && FirstCommand(lines) < |lines|
    ensures Parse(lines).Ok? && WriteFile(Parse(lines).value) == lines
  {
    NormalisedAccepted(lines);
    ReadWriteNormalForm(lines);
    NormalisedIsNormalForm(lines);
  }

  /** A normalised file has no bad line. */
  lemma NormalisedAccepted(lines: seq<string>)
    requires Normalised(lines)
    ensures Parse(lines).Ok?
  {
    assert forall k :: !BadLineAt(lines, k) by {
      forall k | 0 <= k < FirstCommand(lines) ensures Ignorable(TrimSpace(lines[k])) {
        assert NormalAt(lines, k);
      }
    }
    ParseRejected(lines);
  }

  /** A normalised file is its own normal form. */
  lemma NormalisedIsNormalForm(lines: seq<string>)
    requires Normalised(lines)
    ensures NormalForm(lines) == lines
  {
    forall k | 0 <= k < |lines| ensures NormalForm(lines)[k] == lines[k] {
      assert NormalAt(lines, k);
    }
  }

  /** The normal form of a file readFile accepts is normalised, and so read again and
      written again it is left as it is: reading and writing is idempotent. */
  lemma NormalFormNormalised(lines: seq<string>)
    requires Parse(lines).Ok? && FirstCommand(lines) < |lines|
    ensures FirstCommand(NormalForm(lines)) == FirstCommand(lines)
    ensures Normalised(NormalForm(lines))
    ensures Parse(NormalForm(lines)).Ok? && WriteFile(Parse(NormalForm(lines)).value) == NormalForm(lines)
  {
    var w := NormalForm(lines);
    NormalFormFirstCommand(lines);
    forall k | 0 <= k < |w| ensures NormalAt(w, k) {
      NormalLineNormal(lines, k);
    }
    ReadWriteRoundTrip(w);
  }

  lemma NormalFormFirstCommand(lines: seq<string>)
    requires Parse(lines).Ok? && FirstCommand(lines) < |lines|
    ensures FirstCommand(NormalForm(lines)) == FirstCommand(lines)
    ensures forall k | 0 <= k < FirstCommand(lines) :: Ignorable(NormalForm(lines)[k])
  {
    var w := NormalForm(lines);
    var f := FirstCommand(lines);
    ParseRejected(lines);
    forall k | 0 <= k < f ensures !IsCommand(w[k]) && Ignorable(w[k]) {
      assert !BadLineAt(lines, k);
      assert w[k] == TrimSpace(lines[k]);
    }
    assert w[f] == "$ " + CommandText(lines[f]);
    FirstCommandAt(w, f);
  }

  /** The first command line is the first '$' line. */
  lemma FirstCommandAt(lines: seq<string>, f: nat)
    requires f < |lines| && IsCommand(lines[f]) && forall k | 0 <= k < f :: !IsCommand(lines[k])
    ensures FirstCommand(lines) == f
  {
  }

  lemma NormalLineNormal(lines: seq<string>, k: int)
    requires 0 <= k < |lines| && FirstCommand(NormalForm(lines)) == FirstCommand(lines)
    requires forall j | 0 <= j < FirstCommand(lines) :: Ignorable(NormalForm(lines)[j])
    ensures NormalAt(NormalForm(lines), k)
  {
    var w := NormalForm(lines);
    if k < FirstCommand(lines) {
      assert w[k] == TrimSpace(lines[k]);
    } else if IsCommand(lines[k]) {
      assert w[k] == "$ " + CommandText(lines[k]);
      WrittenCommand(CommandText(lines[k]));
    } else {
      assert w[k] == lines[k];
    }
  }

  /** A command written as a line reads back as the same command. */
  lemma WrittenCommand(t: string)
    requires Trimmed(t)
    ensures IsCommand("$ " + t) && CommandText("$ " + t) == t
  {
    assert ("$ " + t)[1..] == " " + t;
    TrimSpaceAfterSpace(t);
  }

  /** Closing the open case and writing the file gives what has been read. */
  lemma FinishEmits(st: ParseState)
    requires st.mode != BeforeFirstCommand && st.current.gotOutput.None?
    ensures WriteFile(Finish(st)) == Emitted(st)
  {
    var c := st.current;
    var r := SplitOutput(c.wantOutput);
    var closed := c.(wantOutput := r.0);
    var all := st.cases + [closed];
    assert Finish(st) == File(all, r.1);
    var k := |st.cases|;
    WriteCasesStep(all, k);
    assert all[..k + 1] == all && all[..k] == st.cases && all[k] == closed;
    var w := WriteCases(st.cases);
    var b := c.before;
    var l := CommandLines(c.commands);
    assert WriteCase(closed) == b + l + r.0;
    assert WriteFile(Finish(st)) == w + (b + l + r.0) + r.1;
    FinishShape(w, b, l, r.0, r.1);
  }

  lemma FinishShape(w: seq<string>, b: seq<string>, l: seq<string>, keep: seq<string>, suffix: seq<string>)
    ensures w + (b + l + keep) + suffix == w + b + l + (keep + suffix)
  {
  }

  // ----- the writer, piece by piece -----

  /** Rendering two blocks of lines one after the other renders their concatenation. */
  lemma {:induction false} RenderAppend(a: seq<string>, b: seq<string>)
    ensures Render(a + b) == Render(a) + Render(b)
    decreases |b|
  {
    if |b| == 0 {
      assert a + b == a;
    } else {
      var last := |b| - 1;
      DropLastAppend(a, b);
      RenderAppend(a, b[..last]);
      RenderShape(Render(a), Render(b[..last]), b[last]);
    }
  }

  lemma DropLastAppend(a: seq<string>, b: seq<string>)
    requires |b| > 0
    ensures (a + b)[..|a + b| - 1] == a + b[..|b| - 1] && (a + b)[|a + b| - 1] == b[|b| - 1]
  {
  }

  lemma RenderShape(x: string, y: string, l: string)
    ensures x + y + l + "\n" == x + (y + l + "\n")
  {
  }

  /** The lines of the first k cases are written before those of the rest. */
  lemma WriteCasesStep(cases: seq<Case>, k: nat)
    requires k < |cases|
    ensures WriteCases(cases[..k + 1]) == WriteCases(cases[..k]) + WriteCase(cases[k])
  {
    assert cases[..k + 1][..k] == cases[..k];
  }

  lemma {:induction false} WriteCasesPrefix(cases: seq<Case>, k: nat) returns (rest: seq<string>)
    requires k <= |cases|
    ensures WriteCases(cases) == WriteCases(cases[..k]) + rest
    decreases |cases| - k
  {
    if k == |cases| {
      assert cases[..k] == cases;
      rest := [];
      assert WriteCases(cases) == WriteCases(cases[..k]) + rest;
    } else {
      var more := WriteCasesPrefix(cases, k + 1);
      WriteCasesStep(cases, k);
      rest := WriteCase(cases[k]) + more;
      assert WriteCases(cases) == WriteCases(cases[..k]) + rest;
    }
  }

  // ----- testFile.compare -----

  /** cmp.Diff reports a case whose last run's output differs from the expected one;
      a run without output matches an empty expectation. */
  predicate Differs(c: Case) {
    c.wantOutput != (if c.gotOutput.Some? then c.gotOutput.value else [])
  }

  /** The start lines of the cases compare reports, in file order. */
  function Differing(cases: seq<Case>): seq<int> {
    if |cases| == 0 then []
    else
      var last := cases[|cases| - 1];
      Differing(cases[..|cases| - 1]) + (if Differs(last) then [last.startLine] else [])
  }

  /** compare reports a line iff a case starting there differs, and it reports
      nothing iff every case matches. */
  lemma {:induction false} DifferingSpec(cases: seq<Case>)
    ensures forall l :: l in Differing(cases) <==> exists k | 0 <= k < |cases| :: Differs(cases[k]) && cases[k].startLine == l
    ensures Differing(cases) == [] <==> forall k | 0 <= k < |cases| :: !Differs(cases[k])
    decreases |cases|
  {
    if |cases| > 0 {
      var n := |cases| - 1;
      var pre := cases[..n];
      DifferingSpec(pre);
      assert forall k | 0 <= k < n :: pre[k] == cases[k];
    }
  }

  // ----- update, twice -----

  /** A run whose only output is a newline leaves gotOutput [""]; writing that back
      and reading the result moves the blank line into the suffix, so each update
      adds one more blank line: update is not idempotent. */
  lemma UpdateAddsBlankLine()
    ensures Parse(["$ echo"]) == Ok(File([Case([], 1, ["echo"], [], None)], []))
    ensures WriteFile(File([Case([], 1, ["echo"], [], Some([""]))], [])) == ["$ echo", ""]
    ensures Parse(["$ echo", ""]) == Ok(File([Case([], 1, ["echo"], [], None)], [""]))
    ensures WriteFile(File([Case([], 1, ["echo"], [], Some([""]))], [""])) == ["$ echo", "", ""]
  {
    ReadEcho();
    ReadEchoBlank();
    WriteEcho();
  }

  lemma ReadEcho()
    ensures ParseUpTo(["$ echo"], 1) == Ok(ParseState(InCommands, [], Case([], 1, ["echo"], [], None), []))
    ensures Parse(["$ echo"]) == Ok(File([Case([], 1, ["echo"], [], None)], []))
  {
    var first := Case([], 1, ["echo"], [], None);
    var st := ParseState(InCommands, [], first, []);
    assert TrimSpace(" echo") == "echo" by { assert LeadingSpace(" echo") == 1; }
    assert ParseUpTo(["$ echo"], 1) == Ok(st);
    assert SplitOutput([]) == ([], []);
    assert [] + [first] == [first];
    assert Finish(st) == File([first], []);
  }

  lemma ReadEchoBlank()
    ensures Parse(["$ echo", ""]) == Ok(File([Case([], 1, ["echo"], [], None)], [""]))
  {
    var lines := ["$ echo", ""];
    var first := Case([], 1, ["echo"], [], None);
    var st1 := ParseState(InCommands, [], first, []);
    ReadEcho();
    assert lines[0] == "$ echo";
    assert ParseUpTo(lines, 1) == Ok(st1);
    var st2 := ParseState(InOutput, [], first.(wantOutput := [""]), []);
    assert !IsCommand("");
    assert first.wantOutput + [""] == [""];
    assert Step(st1, 2, "") == Ok(st1.(mode := InOutput, current := first.(wantOutput := [""])));
    assert st1.(mode := InOutput, current := first.(wantOutput := [""])) == st2;
    assert ParseUpTo(lines, 2) == Ok(st2);
    assert TrailingStart([""]) == 0;
    assert SplitOutput([""]) == ([], [""]);
  }

  lemma WriteEcho()
    ensures WriteFile(File([Case([], 1, ["echo"], [], Some([""]))], [])) == ["$ echo", ""]
    ensures WriteFile(File([Case([], 1, ["echo"], [], Some([""]))], [""])) == ["$ echo", "", ""]
  {
    var ran := Case([], 1, ["echo"], [], Some([""]));
    assert "$ " + "echo" == "$ echo";
    assert ["echo"][..0] == [];
    assert CommandLines(["echo"]) == ["$ echo"];
    assert WriteCase(ran) == ["$ echo", ""];
    assert [ran][..0] == [];
    assert WriteCases([ran]) == ["$ echo", ""];
  }
}
