# go-cmdtest, modelled in Dafny

go-cmdtest runs tests that are written as text files. Such a file (a `.ct` file) alternates two kinds of lines:

- lines starting with `$` are shell-like commands;
- the other lines are the output the commands are expected to print.

A test file is read into test cases. Each case is run through a registry of commands, and its actual output is compared with the expected output. In update mode, the actual output is written back to the file through a temporary file that atomically replaces it.

This project models the core of that engine and proves its properties:

- reading a file's lines into cases, and writing cases back as lines, with a round trip between the two;
- the ` --> FAIL [N]` syntax of a command line;
- `${NAME}` variable expansion;
- running a case's commands and reconciling each outcome with the expectation;
- extracting exit codes from an error chain;
- the pure parts of the built-ins;
- the Windows temporary file, whose two flags (`closed`, `done`) drive Cleanup and CloseAtomicallyReplace over an abstract file system.

## Modules

Each file holds one module:

- `wrappers.dfy` — `Option` and `Result`.
- `text.dfy` — the Go library functions the core uses, written out:
  - `strings.TrimSpace`, `Fields`, `Split`, `Join`, `LastIndex`, `Replace` and `TrimRight`;
  - `strconv.Atoi`, bounded to 64 bits.
- `command_line.dfy` — `parseCommand`.
- `variables.dfy` — the regular expression `\$\{([^${}]+)\}`, written as an explicit leftmost search, plus `expandVariables`. The expander is both a recursive function and the loop of the Go code.
- `commands.dfy`:
  - the error chain that `errors.As` walks;
  - `extractExitCode`, `checkPath` and `fixedArgBuiltin`;
  - `echoCmd`, plus the decision and text of `fechoCmd`.
- `format.dfy` — the pure specification of the file format:
  - the `Case` and `File` values;
  - `readFile`'s three-state line machine as a fold (`Step`, `ParseUpTo`, `Parse`);
  - the writer as the lines it emits (`WriteFile`);
  - the lemmas about both.
- `engine.dfy` — the pure specification of `testCase.execute`:
  - expansion, redirection, registry lookup and reconciliation;
  - the scrub, trim and split of the output;
  - the loop of `testFile.execute` over cases.
- `temp_files.dfy` — a `FileSystem` class, a map from names to contents, and the `SimpleTempFile` class. Every OS call may fail.
- `cmdtest.dfy` — the `TestCase` and `TestFile` classes:
  - the imperative loops of `readFile`, `addCase`, `execute`, `write`, `writeCommands` and `writeLines`;
  - `updateToTemp` and `update`.

  Each of these is proved against the functions of `format.dfy` and `engine.dfy`.

### What the model takes as parameters

- **Registry of commands.** A `map<string, CommandFunc>` from a name to a function of `(args, inputFile)`. The function returns the output text and an optional error chain.
- **Environment.** A `map<string, string>`.
- **Execution settings.** The root directory, the path separator and the `parallel` flag.
- **Abstract runners.** The methods that run commands accept a ghost `Runner` or `CaseRunner`, together with a precondition that it behaves like the engine's own `RunCommand` or `RunCase`. This lets the loops be proved one step at a time; two glue lemmas in `engine.dfy` show that the engine's own runners meet the precondition.
- **Temporary file name.** The name `ioutil.TempFile` would choose is a parameter. The only requirement is that it differs from the destination.
- **Input lines.** The input file is the sequence of lines `bufio.Scanner` yields.

## Model

| member | source | states |
|---|---|---|
| Text.TrimSpace | cmdtest.go:526 | the result is the input without leading and trailing white space and is itself trimmed; a trimmed input is returned unchanged |
| Text.Fields | cmdtest.go:467 | every field is a non-empty run of non-space characters; there are no fields exactly when the string is all white space |
| Text.FieldsLeading | cmdtest.go:467 | the first field is the leading token: white space before it is dropped and the token ends at the first white space after it, the rest being the fields of what follows |
| Text.FieldsJoin | cmdtest.go:467 | tokens without white space joined by single spaces, after any leading white space, are split back into exactly those tokens |
| Text.Split | cmdtest.go:513 | at least one piece, no piece contains the separator, and joining the pieces with the separator gives back the input |
| Text.LastIndex | cmdtest.go:520 | -1 exactly when the pattern does not occur; otherwise an occurrence with none to the right of it |
| Text.TrimRight | cmdtest.go:512 | the result is a prefix of the input, every dropped character is in the cutset, and the result does not end in one |
| Text.Replace | cmdtest.go:697-698 | a string that does not contain the (non-empty) pattern is returned as it is |
| Text.ReplaceLeavesNone | cmdtest.go:697-698 | replacing every occurrence of a non-empty pattern by a non-empty text none of whose characters is in the pattern leaves no occurrence |
| Text.Atoi | cmdtest.go:528 | a parsed value is within 64-bit range; the text starts with a digit or a sign, every later character is a digit, and a sign is followed by at least one digit; a digit string whose value fits is parsed to that value |
| Text.AtoiItoa | cmdtest.go:528 | Atoi parses back every 64-bit integer printed in decimal |
| CommandLine.ParseCommand | cmdtest.go:518-537 | without ` --> FAIL` the whole line is the command and it must succeed; otherwise the rightmost marker splits the line, and the trimmed rest decides: empty means fail with any code, a non-zero integer means fail with that code, and anything else or 0 is an error; a command that must succeed has code 0 |
| CommandLine.LastMarkerIsLastIndex | cmdtest.go:519-520 | the rightmost marker that ParseCommand's contract speaks of is the index strings.LastIndex finds |
| CommandLine.ParseAfterAppendedMarker | cmdtest.go:524-536 | appending the marker and a tail with no later marker gives the outcome the trimmed tail decides |
| CommandLine.ParseFormatted | cmdtest.go:518-537 | printing a command with its expectation (nothing, ` --> FAIL`, or ` --> FAIL N`) and parsing it gives back the command, the flag and the code |
| CommandLine.ParseCommandWithoutMarker | cmdtest_test.go:279-291 | `ls` and `a b c --> fail` come back whole, expected to succeed (the marker is case-sensitive) |
| CommandLine.ParseCommandWithMarker | cmdtest_test.go:283-287 | `a b c --> FAIL   ` is `a b c`, expected to fail with any code |
| CommandLine.ParseCommandWithMarkerAndCode | cmdtest_test.go:292-297 | `a b c --> FAIL 23` is `a b c`, expected to fail with code 23 |
| CommandLine.ParseCommandNonIntegerCode | cmdtest_test.go:298-301 | `--> FAIL 23a` is an error naming `23a` |
| CommandLine.ParseCommandZeroCode | cmdtest_test.go:302-305 | `--> FAIL 0` is the zero-exit-code error |
| Variables.MatchEndAt | cmdtest.go:661 | a reference match starting at i ends at j exactly when the function returns j, so a match at a given start is unique |
| Variables.NoOverlap | cmdtest.go:661 | two matches that overlap are the same match |
| Variables.FindReference | cmdtest.go:675 | the leftmost match, or None exactly when the string holds no match |
| Variables.Expand | cmdtest.go:672-689 | a string without references is returned unchanged; a failure names a variable that is not defined |
| Variables.ExpandVariables | cmdtest.go:672-689 | the loop that rebinds s and appends to the builder computes Expand |
| Variables.ExpandSucceedsIff | cmdtest.go:680-684 | expansion succeeds if and only if every reference in the string names a defined variable |
| Variables.ReferencesAfterLeftmost | cmdtest.go:685-687 | every other match lies wholly after the leftmost one, and the matches of the unscanned rest are matches of the string with the same names |
| Variables.ValueNotRescanned | cmdtest.go:685-687 | a reference expands to exactly its value, whatever the value contains |
| Variables.ExpandedTextMayHoldReference | cmdtest.go:685-687 | `${${A}}` with A=x expands to `${x}`, which is itself a reference: values and surrounding text are not rescanned |
| Variables.ExpandExamplesDefined | cmdtest_test.go:213-215 | `""`, `${A}` and `${A}${B_C}` expand to `""`, `1` and `1234` |
| Variables.ExpandExampleSpaced | cmdtest_test.go:216 | ` x${A}y  ${B_C}z ` expands to ` x1y  234z ` |
| Variables.ExpandExampleUnclosed | cmdtest_test.go:217 | ` ${A${B_C}` expands to ` ${A234` |
| Variables.ExpandExampleUndefined | cmdtest_test.go:229-232 | `x${C}y` fails, naming C |
| Commands.FindKind | cmdtest.go:548-553 | the position of the first link of a kind in the error chain, which is what errors.As finds |
| Commands.ExtractExitCode | cmdtest.go:541-557 | no code is found exactly when no link carries one; otherwise the code is that of the first Errno if there is one, else of the first ExitError, else of the first ExitCodeErr |
| Commands.CheckPath | cmdtest.go:841-846 | the path is accepted if and only if it contains neither `/` nor `\` (strings.ContainsRune on each) |
| Commands.FixedArgBuiltin | cmdtest.go:746-756 | reference definition of the wrapper; what the wrapped function does on each call is stated by Commands.FixedArgCall |
| Commands.FixedArgCall | cmdtest.go:746-756 | with exactly nargs arguments and no input file the wrapped function's result; otherwise an error and no output |
| Commands.EchoCmd | cmdtest.go:776-784 | succeeds exactly without an input file, and then prints the arguments joined by spaces, with `\n` replaced by a newline, plus a newline |
| Commands.Echo | cmdtest.go:776-784 | reference definition of the echo built-in as a registry entry; its properties are stated by Commands.EchoCmd |
| Commands.EchoText | cmdtest.go:780-782 | reference definition of echo's text; its properties are stated by Commands.EchoTextProperties and NoEscapeLeft |
| Commands.EchoTextProperties | cmdtest.go:780-782 | echo's text ends in a newline and no literal `\n` survives |
| Commands.NoEscapeLeft | cmdtest.go:781 | after replacing every `\n` with a newline, no `\n` is left |
| Commands.FechoCmd | cmdtest.go:791-805 | writes a file exactly when there is a first argument, no input file, and the first argument is a plain name; the file is that argument and the content is echo's text of the rest |
| Format.TrailingStart | cmdtest.go:275-282 | the index where the trailing run of blank and `#` lines begins |
| Format.TrailingStartUnique | cmdtest.go:275-282 | that index is the only one with its two properties |
| Format.SplitOutput | cmdtest.go:272-290 | kept and suffix concatenate to the output; kept is empty or ends in a line that is neither blank nor a comment; every suffix line is blank or a comment |
| Format.CommandLines | cmdtest.go:725-732 | each command written as `$ ` and the command |
| Format.Render | cmdtest.go:734-744 | the text of a non-empty sequence of lines ends in a newline |
| Format.RenderAppend | cmdtest.go:734-744 | writing two sequences of lines one after the other writes their concatenation |
| Format.Step | cmdtest.go:216-254 | reference definition of one pass of the loop body; its properties are stated by Format.StepOpensCase, StepAddsPrefix, StepAddsCommand, StepAddsOutputLine, StepClosesCase and StepError |
| Format.ParseUpTo | cmdtest.go:194-255 | reference definition of the loop after n lines; its properties are stated by Format.ParseUpToReachable, ParseUpToError and ParseUpToEmits |
| Format.Finish | cmdtest.go:259-261 | reference definition of the step after the loop; its properties are stated by Format.ParseAccepted and FinishEmits |
| Format.Parse | cmdtest.go:194-263 | reference definition of readFile on a file's lines; its properties are stated by Format.ParseAccepted, ParseRejected, ReadWriteNormalForm and ReadWriteRoundTrip |
| Format.ParseUpToReachable | cmdtest.go:216-255 | the loop invariant after any number of lines: before the first command, the prefix is exactly those lines trimmed, each blank or a comment. After it, with the open case being the first or not: the first case starts on the first `$` line, its `before` being the lines above trimmed; every case's commands are a maximal run of consecutive `$` lines starting at its start line, each with `$` removed and trimmed; no case's output holds a `$` line; the cases tile the file, each after the first starting right after the previous case's commands and output and its own `before` lines, and the open case's commands and output end at line n; every stored case's output is empty or ends in a significant line; in the command block the open case has no output |
| Format.StepOpensCase | cmdtest.go:221-225 | the first `$` line opens a case at its line number holding the collected prefix |
| Format.StepAddsPrefix | cmdtest.go:226-229 | before the first command a trimmed blank or comment line joins the prefix |
| Format.StepAddsCommand | cmdtest.go:235-237 | in the command block a `$` line adds a command |
| Format.StepAddsOutputLine | cmdtest.go:238-251 | any other line after a command is appended, as it is, to the open case's output, the state becomes inOutput and the stored cases are unchanged |
| Format.StepClosesCase | cmdtest.go:244-248 | a `$` line after output appends the open case, its output cut to what precedes the trailing blank and comment lines, to the stored cases, and opens the next case on line n with those trailing lines as its `before` |
| Format.StepError | cmdtest.go:226-232 | a step fails exactly at a bad line before the first command, and the error carries its 1-based number and trimmed text |
| Format.OpenedCase | cmdtest.go:223-224 | a new case holds one command taken from its line |
| Format.ClosedCase | cmdtest.go:283-288 | a case stored by addCase ends its output with a line that is neither blank nor a comment, and the suffix it leaves is blank lines and comments |
| Format.ParseUpToError | cmdtest.go:226-232 | after n lines the loop has failed if and only if one of them is a bad line, and the error is the first bad line's |
| Format.ParseUpToStops | cmdtest.go:231 | once the loop fails, the file's result is that error |
| Format.ParseRejected | cmdtest.go:226-232 | reading fails if and only if some line before the first command is neither blank nor a comment once trimmed, and the error names the first such line |
| Format.ParseAccepted | cmdtest.go:216-262 | every case read has at least one command, its commands are a maximal run of `$` lines starting at its 1-based start line (no `$` line just before or just after), its `before` lines are blank or comments, its output holds no `$` line and does not end in a blank line or comment, and it has no got output; the first case starts on the first `$` line and its `before` is the lines above, trimmed; the suffix is blank lines and comments; the cases tile the file, each after the first starting right after the previous case's commands and output and its own `before` lines, and the last case's output and the suffix end the file; there are no cases exactly when there is no `$` line |
| Format.ParseWithoutCommands | cmdtest.go:259-262 | a file of comments without commands reads as no cases and no suffix |
| Format.ParseUpToEmits | cmdtest.go:216-255 | on a normalised file, the lines the state after n lines would write are the first n lines |
| Format.FinishEmits | cmdtest.go:259-261 | closing the last case keeps the lines the state would write |
| Format.WriteCase | cmdtest.go:711-723 | reference definition of the lines one case writes; its properties are stated by Format.ReadWriteNormalForm and CmdTest.TestCase.Write |
| Format.WriteCases | cmdtest.go:702-707 | reference definition of the lines the cases write, one after another; its properties are stated by Format.ReadWriteNormalForm and CmdTest.TestFile.Write |
| Format.WriteFile | cmdtest.go:702-709 | reference definition of the lines a file writes; its properties are stated by Format.ReadWriteNormalForm, ReadWriteRoundTrip and NormalFormNormalised |
| Format.ReadWriteNormalForm | cmdtest.go:194-263 | writing any freshly read file that has a command gives its lines back in normal form: lines before the first command trimmed, each `$` line as `$ ` and its trimmed command, every other line unchanged |
| Format.ReadWriteRoundTrip | cmdtest.go:702-744 | writing a freshly read file that has a command and is normalised yields its lines exactly |
| Format.NormalFormNormalised | cmdtest.go:702-744 | the normal form of an accepted file is normalised, with the first command on the same line, so reading and writing it again leaves it unchanged |
| Format.WrittenCommand | cmdtest.go:265-267 | a trimmed command written as `$ ` and the command is a `$` line whose command reads back unchanged |
| Format.Differing | cmdtest.go:349-355 | reference definition of the start lines of the cases that differ; its properties are stated by Format.DifferingSpec |
| Format.DifferingSpec | cmdtest.go:349-355 | a start line is reported exactly when some case at that line has a got output different from its want output; nothing is reported exactly when no case differs |
| Format.ReadEcho | cmdtest.go:216-262 | `$ echo` reads as one case with no output |
| Format.ReadEchoBlank | cmdtest.go:259-262 | `$ echo` then a blank line reads as that case with the blank line as suffix |
| Format.WriteEcho | cmdtest.go:702-723 | that case with got output one empty line writes `$ echo` and an empty line, then the suffix |
| Format.UpdateAddsBlankLine | cmdtest.go:216-262 | `$ echo` read, given the got output `[""]` and written becomes `$ echo` and a blank line, and that read and written again gains one more blank line: updating is not idempotent. The got output `[""]` is the one Engine.EchoCaseOutput derives |
| Engine.ExpandAll | cmdtest.go:467-473 | each argument is expanded in order; the expansion fails exactly when one of them does, with the first failing one's error |
| Engine.ExpandAllStops | cmdtest.go:468-472 | once a prefix of the arguments fails, the rest are not looked at |
| Engine.SplitRedirect | cmdtest.go:477-481 | with `<` second to last, the last argument is the input file and both are dropped; otherwise the arguments are unchanged and there is no input file |
| Engine.Reconcile | cmdtest.go:489-505 | no error exactly when the command failed as expected and, for FAIL N, produced N; success under FAIL and failure without it are the matching errors |
| Engine.RunCommand | cmdtest.go:461-506 | reference definition of one command of a case; its properties are stated by Engine.RunCommandOutcome and RunCommandUndefined |
| Engine.RunArguments | cmdtest.go:474-505 | reference definition of lookup, redirection, call and reconciliation; its properties are stated by Engine.RunCommandOutcome |
| Engine.RunCommandOutcome | cmdtest.go:462-505 | a command with no arguments, an unknown command, success under FAIL, failure without FAIL, FAIL N with no code or a different code: each gives its own error; otherwise the command's output |
| Engine.RunCommandUndefined | cmdtest.go:467-473 | a reference to an undefined variable stops the command with that variable's name |
| Engine.RunFrom | cmdtest.go:461-506 | reference definition of the loop over a case's commands from the i-th on; its properties are stated by Engine.RunFromFirstError |
| Engine.RunCommands | cmdtest.go:458-506 | reference definition of the loop over all of a case's commands; its properties are stated by Engine.RunFromFirstError and ExecuteCaseStops |
| Engine.RunFromFirstError | cmdtest.go:461-506 | the commands run through if and only if each succeeds; otherwise the error is that of the first failing one; on success the output is what came before followed by each command's output, in order |
| Engine.RunFromOutput | cmdtest.go:486-488 | on success the collected output is what came before followed by the concatenated outputs of the commands, in order |
| Engine.Scrub | cmdtest.go:692-700 | reference definition of scrub; its properties are stated by Engine.ScrubWithoutRootDir, ScrubRemovesRootDir, ScrubRootDir, ScrubRootPath and ScrubExample |
| Engine.ScrubWithoutRootDir | cmdtest.go:692-700 | output that never mentions the root directory is not changed by scrub |
| Engine.ScrubRemovesRootDir | cmdtest.go:692-700 | no occurrence of the root directory is left in scrubbed output, when the root directory is non-empty and shares no character with `${ROOTDIR}` |
| Engine.ScrubRootDir | cmdtest.go:698 | the root directory alone becomes `${ROOTDIR}` |
| Engine.ScrubRootPath | cmdtest.go:695-698 | a path below the root directory becomes `${ROOTDIR}`, the separator and the rest, when the root directory shares no character with `${ROOTDIR}` and does not occur again |
| Engine.ScrubExample | cmdtest.go:692-700 | with root directory `/r`, `/r/f` becomes `${ROOTDIR}/f` |
| Engine.CaseOutput | cmdtest.go:507-514 | no output exactly when nothing was printed; otherwise lines without newlines that, joined, are the scrubbed (or, when parallel, raw) output right-trimmed of spaces, tabs and newlines |
| Engine.NewlineOutput | cmdtest.go:507-514 | output that is one newline becomes the got output of one blank line |
| Engine.EchoCaseOutput | cmdtest.go:458-515 | a case whose one command is `echo`, run with the built-in echo, prints a newline and gets the got output `[""]` with no error |
| Engine.ExecuteCase | cmdtest.go:458-516 | a case that stops with an error has no got output |
| Engine.ExecuteCaseStops | cmdtest.go:458-506 | the first error of the commands stops the case with no output |
| Engine.ExecuteCaseRuns | cmdtest.go:507-515 | when every command ran, the got output is the case output of everything printed |
| Engine.RunCase | cmdtest.go:443 | reference definition of running one case; its properties are stated by Engine.ExecuteCase, ExecuteCaseStops and ExecuteCaseRuns |
| Engine.RunCasesWith | cmdtest.go:442-447 | reference definition of the loop over a file's cases; its properties are stated by Engine.RunCasesSpec |
| Engine.RunCasesSpec | cmdtest.go:442-447 | cases run in order until the first error: those reached are replaced by their run, the rest are unchanged; the run succeeds exactly when every case does, and an error is that of a reached case |
| TempFiles.SimpleTempFile.constructor | tempFileWindows.go:34 | a handle named for the temporary file, renaming to the destination, neither closed nor done |
| TempFiles.SimpleTempFile.WriteString | cmdtest.go:850 | a prefix of the text is appended to the temporary file, all of it unless an error is returned, and no other file changes; writing to a closed or missing file fails |
| TempFiles.SimpleTempFile.SyncFile | tempFileWindows.go:64 | a Sync call is recorded; it fails on a closed file |
| TempFiles.SimpleTempFile.CloseFile | tempFileWindows.go:68 | a Close call is recorded and the file is closed afterwards; closing twice fails |
| TempFiles.SimpleTempFile.RemoveFile | tempFileWindows.go:57 | the temporary file is removed, or nothing changes and a Remove error is returned |
| TempFiles.SimpleTempFile.RenameFile | tempFileWindows.go:71 | the temporary file moves over the destination, or nothing changes and a Rename error is returned |
| TempFiles.SimpleTempFile.Cleanup | tempFileWindows.go:48-61 | when done, nothing happens and there is no error; otherwise Close is called only if not closed yet, and the file is removed; a Remove error wins over a Close error; the destination is never touched |
| TempFiles.SimpleTempFile.CloseAtomicallyReplace | tempFileWindows.go:63-76 | Sync, then Close (marking closed first), then Rename; done is set only when all three succeed; the files change only through that final Rename |
| TempFiles.CreateTempFile | tempFileWindows.go:29-35 | a new, empty temporary file of the given name whose rename target is the destination, neither closed nor done; or an error and nothing changed |
| TempFiles.ReplaceThenCleanup | cmdtest.go:367-380 | the deferred Cleanup after CloseAtomicallyReplace: on success the temporary file has replaced the destination and Cleanup is a no-op; when Sync succeeded, Close is called exactly once in all; on failure the temporary file is removed or an error reported, and the destination is kept |
| CmdTest.TestCase.constructor | cmdtest.go:223 | a new case at its start line with its `before` lines, no commands and no output |
| CmdTest.TestCase.AddCommandLine | cmdtest.go:265-267 | the command is the `$` line with its `$` removed and trimmed, appended to the commands |
| CmdTest.TestCase.Execute | cmdtest.go:458-516 | the case after execution, and its error, are what the engine's RunCase gives |
| CmdTest.TestCase.Write | cmdtest.go:711-723 | writes the `before` lines, the commands and the got output (or, if none, the want output), stopping at the first write error |
| CmdTest.TestCase.WriteCommands | cmdtest.go:725-732 | writes `$ ` and each command on its own line, stopping at the first write error |
| CmdTest.RunAll | cmdtest.go:459-506 | the loop over a case's commands collects exactly the output RunFrom specifies, or stops with its error |
| CmdTest.RunOne | cmdtest.go:461-506 | one command: its output appended, exactly when the runner succeeds; otherwise the runner's error |
| CmdTest.Invoke | cmdtest.go:474-505 | lookup, redirection, call and reconciliation agree with RunArguments in success, output and error |
| CmdTest.ExpandArgs | cmdtest.go:467-473 | the in-place loop over the argument array computes ExpandAll |
| CmdTest.TestFile.constructor | cmdtest.go:202-204 | a file with its name and no cases |
| CmdTest.TestFile.AddCase | cmdtest.go:272-290 | the case's output becomes the kept part of SplitOutput and the suffix is returned; the case is appended to the file's cases |
| CmdTest.TestFile.Execute | cmdtest.go:442-447 | running the cases in order until the first error leaves them as RunCasesWith specifies |
| CmdTest.TestFile.ExecuteAt | cmdtest.go:443 | running the i-th case changes only that case, as the case runner says |
| CmdTest.TestFile.Write | cmdtest.go:702-709 | writes every case and then the suffix, as WriteFile, stopping at the first write error |
| CmdTest.TestFile.Differences | cmdtest.go:349-355 | the start lines of the cases whose got output differs from their want output, in order |
| CmdTest.WriteLines | cmdtest.go:734-744 | each line followed by a newline, stopping at the first write error |
| CmdTest.UpdateToTemp | cmdtest.go:387-399 | the cases are executed; on an execution error nothing is created; otherwise a new temporary file is created (or the creation error returned), and it holds the written file unless the write failed, in which case it is returned for cleanup |
| CmdTest.WriteToTemp | cmdtest.go:391-398 | creates the temporary file and writes the test file into it |
| CmdTest.Settle | cmdtest.go:368-380 | the deferred cleanup or the replacement of the destination, depending on the earlier error |
| CmdTest.Update | cmdtest.go:361-383 | with no error the destination holds the updated file and nothing else changed; with an error and a clean cleanup the files are as before; the destination is never damaged by a failure |
| CmdTest.ReadFile | cmdtest.go:194-263 | the file read by the line loop is the one Parse gives, or the loop stops with Parse's error |
| CmdTest.ReadLine | cmdtest.go:216-254 | one pass of the loop body takes the objects to the state Step gives, or returns Step's error |
| CmdTest.ReadOutputLine | cmdtest.go:243-251 | the pass of the loop body after output began: a `$` line stores the case and opens the next, any other line joins the output; never an error, and the state is the one Step gives |
| CmdTest.Close | cmdtest.go:259-262 | after the loop, the open case is added and the file is Finish of the state |

## Left out

- Read (`filepath.Glob`), opening files and `bufio.Scanner`: the input is the sequence of lines the scanner would yield, and a scanner error is not modelled.
- TestSuite.Run, RunParallel, run, compare and update as subtests: `t.Run`, `t.Parallel`, `t.Fatal`, logging and the `cmp.Diff` text are left out. What is kept is which cases differ (Differences) and the update protocol (Update).
- testFile.execute's OS work: the temporary root directory, setting and unsetting ROOTDIR, Chdir, copying the `_tf` test files and the Setup hook. The root directory is a parameter.
- Program, execute and InProcessProgram: they spawn processes, redirect stdout and stdin and use goroutines. A registry entry is an abstract function.
- The OS effects of the built-ins cd, cat, mkdir, setenv and fecho's file write. FechoCmd returns the write it would make rather than making it.
- setenv: its effect on later variable lookups is not modelled, because the environment is a fixed map.
- errors.As over syscall and exec error types: an error is a chain of tagged links, and the first link of each kind is what errors.As would find.
- The panic on a command line with no words (a bare `$`, cmdtest.go:475): the model returns the explicit error EmptyCommand instead.
- Sync durability and the non-Windows createTempFile are not modelled. The temporary file's name, which ioutil.TempFile chooses at random, is a parameter.
- Command output is text (`seq<char>`), not bytes. Only ASCII separators are searched for, so this changes nothing the model states.
- Error messages: the file name and position prefixes that `fmt.Errorf` adds, and the message texts, are reduced to datatype constructors carrying the line, the command and the codes.
- ReadFile: does not state that the cases it creates are newly allocated objects, only that the file object is new and that its contents are Parse's result.
- A file without any `$` line keeps its comment lines nowhere, because tc stays nil and the suffix stays empty. The round trip (Format.ReadWriteRoundTrip) therefore requires at least one command.
- expandVariables never rescans substituted values or the text around them, so its result can contain `${...}`: `${${A}}` with A=x yields `${x}` (Variables.ExpandedTextMayHoldReference).
- Engine.ScrubRemovesRootDir: proved only for a root directory that shares no character with `${ROOTDIR}`; otherwise scrub can leave an occurrence (with root directory `}a`, the output `}aa` becomes `${ROOTDIR}a`, which still holds `}a`), and the model states nothing for that case.
- Text.Replace: proved only to leave a string without the pattern unchanged and, when the replacement is non-empty and shares no character with the pattern, to leave no occurrence of it. Its full output is given by its definition, which mirrors strings.Replace with n = -1.
