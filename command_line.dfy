/** The syntax of one command line of a test case: an optional " --> FAIL" marker,
    optionally followed by the non-zero exit code the command must fail with
    (parseCommand, cmdtest.go:518-537). */
module CommandLine {
  import opened Wrappers
  import opened Text

  /** The marker is case-sensitive and its spacing is exact. */
  const FailMarker: string := " --> FAIL"

  /** What a command line asks for: the command text, whether it must fail, and the
      exit code it must fail with (0 when any failure will do). */
  datatype Parsed = Parsed(cmd: string, wantFail: bool, wantExitCode: int)

  /** The two ways the text after the marker can be malformed. */
  datatype SyntaxError = NotAnInteger(rest: string) | ZeroExitCode

  /** The marker occurs at i and nowhere to the right of i. */
  ghost predicate IsLastMarker(s: string, i: int) {
    OccursAt(s, FailMarker, i) && forall j | i < j :: !OccursAt(s, FailMarker, j)
  }

  /** The trimmed text that follows the marker at i. */
  function AfterMarker(s: string, i: nat): string
    requires i + |FailMarker| <= |s|
  {
    TrimSpace(s[i + |FailMarker|..])
  }

  function ParseCommand(cmdline: string): (r: Result<Parsed, SyntaxError>)
    // without a marker the whole line is the command, which must succeed
    ensures !Contains(cmdline, FailMarker) ==> r == Ok(Parsed(cmdline, false, 0))
    // otherwise the rightmost marker splits the line, and what follows it decides
    ensures forall i | IsLastMarker(cmdline, i) ::
      var rest := AfterMarker(cmdline, i);
      && (rest == [] ==> r == Ok(Parsed(cmdline[..i], true, 0)))
      && (rest != [] && Atoi(rest).None? ==> r == Err(NotAnInteger(rest)))
      && (Atoi(rest) == Some(0) ==> r == Err(ZeroExitCode))
      && (Atoi(rest).Some? && Atoi(rest).value != 0 ==> r == Ok(Parsed(cmdline[..i], true, Atoi(rest).value)))
    // a command that must succeed never carries an exit code
    ensures r.Ok? && !r.value.wantFail ==> r.value.wantExitCode == 0
  {
    var i := LastIndex(cmdline, FailMarker);
    LastMarkerIsLastIndex(cmdline);
    if i < 0 then Ok(Parsed(cmdline, false, 0))
    else
      var rest := AfterMarker(cmdline, i);
      if |rest| == 0 then Ok(Parsed(cmdline[..i], true, 0))
      else match Atoi(rest)
        case None => Err(NotAnInteger(rest))
        case Some(n) => if n == 0 then Err(ZeroExitCode) else Ok(Parsed(cmdline[..i], true, n))
  }

  /** The rightmost marker is the one strings.LastIndex finds. */
  lemma LastMarkerIsLastIndex(s: string)
    ensures forall i | IsLastMarker(s, i) :: i == LastIndex(s, FailMarker)
  {
    var r := LastIndex(s, FailMarker);
    forall i | IsLastMarker(s, i)
      ensures i == r
    {
      assert !OccursAt(s, FailMarker, r) || r <= i;
    }
  }

  /** The line a test author writes for a command with the given expectation. */
  function FormatCommand(cmd: string, wantFail: bool, wantExitCode: int): string {
    if !wantFail then cmd
    else if wantExitCode == 0 then cmd + FailMarker
    else cmd + FailMarker + " " + Itoa(wantExitCode)
  }

  lemma NatDigitsHasNoSpace(n: nat)
    ensures forall k | 0 <= k < |NatDigits(n)| :: NatDigits(n)[k] != ' ' && NatDigits(n)[k] != '-'
  {
  }

  /** The marker appended at the end of a command is the rightmost one, whatever the
      command contains and whatever exit code follows. */
  lemma {:induction false} MarkerAtEndIsLast(cmd: string, tail: string)
    requires forall k | 0 <= k && k + 2 < |tail| :: !(tail[k] == ' ' && tail[k + 1] == '-' && tail[k + 2] == '-')
    ensures IsLastMarker(cmd + FailMarker + tail, |cmd|)
  {
    var s := cmd + FailMarker + tail;
    var c := |cmd|;
    assert s[c..c + |FailMarker|] == FailMarker;
    forall j | c < j
      ensures !OccursAt(s, FailMarker, j)
    {
      MarkerStart(s, j);
    }
  }

  /** The marker starts with a space and two dashes. */
  lemma MarkerStart(s: string, j: int)
    ensures OccursAt(s, FailMarker, j) ==> j + 2 < |s| && s[j] == ' ' && s[j + 1] == '-' && s[j + 2] == '-'
  {
    if OccursAt(s, FailMarker, j) {
      assert s[j..j + |FailMarker|][0] == ' ';
      assert s[j..j + |FailMarker|][1] == '-';
      assert s[j..j + |FailMarker|][2] == '-';
    }
  }

  /** Parsing a command whose rightmost marker is the one appended after cmd. */
  lemma ParseAfterAppendedMarker(cmd: string, tail: string)
    requires forall k | 0 <= k && k + 2 < |tail| :: !(tail[k] == ' ' && tail[k + 1] == '-' && tail[k + 2] == '-')
    ensures var rest := TrimSpace(tail);
      ParseCommand(cmd + FailMarker + tail) ==
        if rest == [] then Ok(Parsed(cmd, true, 0))
        else match Atoi(rest)
          case None => Err(NotAnInteger(rest))
          case Some(n) => if n == 0 then Err(ZeroExitCode) else Ok(Parsed(cmd, true, n))
  {
    var s := cmd + FailMarker + tail;
    MarkerAtEndIsLast(cmd, tail);
    assert s[..|cmd|] == cmd;
    assert s[|cmd| + |FailMarker|..] == tail;
    assert AfterMarker(s, |cmd|) == TrimSpace(tail);
  }

  /** Writing an expectation and parsing it back gives the same expectation: the
      parser and the notation of the test-file language agree. */
  lemma ParseFormatted(cmd: string, wantFail: bool, wantExitCode: int)
    requires !wantFail ==> !Contains(cmd, FailMarker) && wantExitCode == 0
    requires MinInt <= wantExitCode <= MaxInt
    ensures ParseCommand(FormatCommand(cmd, wantFail, wantExitCode)) == Ok(Parsed(cmd, wantFail, wantExitCode))
  {
    if wantFail && wantExitCode == 0 {
      ParseAfterAppendedMarker(cmd, "");
      assert cmd + FailMarker + "" == cmd + FailMarker;
    } else if wantFail {
      var x := Itoa(wantExitCode);
      var n: nat := if wantExitCode < 0 then -wantExitCode else wantExitCode;
      NatDigitsHasNoSpace(n);
      var tail := " " + x;
      assert FormatCommand(cmd, wantFail, wantExitCode) == cmd + FailMarker + tail;
      assert x == (if wantExitCode < 0 then "-" else "") + NatDigits(n);
      assert forall k | 0 <= k < |x| :: !IsSpace(x[k]) && (x[k] == '-' ==> k == 0);
      ParseAfterAppendedMarker(cmd, tail);
      TrimSpaceAfterSpace(x);
      AtoiItoa(wantExitCode);
    }
  }

  /** The table of cmdtest_test.go:279-291: lines without the exact marker. */
  lemma ParseCommandWithoutMarker()
    ensures ParseCommand("ls") == Ok(Parsed("ls", false, 0))
    ensures ParseCommand("a b c --> fail") == Ok(Parsed("a b c --> fail", false, 0))
  {
    var s := "a b c --> fail";
    forall i | 0 <= i <= |s| - |FailMarker|
      ensures !OccursAt(s, FailMarker, i)
    {
      assert s[i..i + |FailMarker|][|FailMarker| - 1] == s[i + |FailMarker| - 1];
    }
  }

  /** The table of cmdtest_test.go:283-287: the marker alone, followed by spaces. */
  lemma ParseCommandWithMarker()
    ensures ParseCommand("a b c" + FailMarker + "   ") == Ok(Parsed("a b c", true, 0))
  {
    ParseAfterAppendedMarker("a b c", "   ");
    assert LeadingSpace("   ") == 3;
  }

  /** The table of cmdtest_test.go:292-297: the marker followed by an exit code. */
  lemma ParseCommandWithMarkerAndCode()
    ensures ParseCommand("a b c" + FailMarker + " " + "23") == Ok(Parsed("a b c", true, 23))
  {
    ParseWithCode("a b c", "23");
    AtoiExample();
  }

  lemma AtoiExample()
    ensures Atoi("23") == Some(23)
  {
    assert DigitsValue("23") == 23 && AllDigits("23");
  }

  /** Parsing a command followed by the marker and one space-free word. */
  lemma ParseWithCode(cmd: string, x: string)
    requires |x| > 0 && forall k | 0 <= k < |x| :: !IsSpace(x[k]) && x[k] != '-'
    ensures ParseCommand(cmd + FailMarker + " " + x) ==
        match Atoi(x)
          case None => Err(NotAnInteger(x))
          case Some(n) => if n == 0 then Err(ZeroExitCode) else Ok(Parsed(cmd, true, n))
  {
    ParseAfterAppendedMarker(cmd, " " + x);
    TrimSpaceAfterSpace(x);
    assert cmd + FailMarker + " " + x == cmd + FailMarker + (" " + x);
  }

  /** The table of cmdtest_test.go:298-301, for every command: a code that is not an integer. */
  lemma ParseCommandNonIntegerCode(cmd: string)
    ensures ParseCommand(cmd + FailMarker + " " + "23a") == Err(NotAnInteger("23a"))
  {
    ParseWithCode(cmd, "23a");
    assert !IsDigit("23a"[2]);
  }

  /** The table of cmdtest_test.go:302-305, for every command: 0 is not an exit code a
      command can fail with. */
  lemma ParseCommandZeroCode(cmd: string)
    ensures ParseCommand(cmd + FailMarker + " " + "0") == Err(ZeroExitCode)
  {
    ParseWithCode(cmd, "0");
    assert DigitsValue("0") == 0;
  }
}
