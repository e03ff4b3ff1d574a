# cronclearer, modelled in Dafny

cronclearer is a small wrapper for commands started by cron. It runs the
command directly, with its standard output and its standard error captured in
temporary files. A command that traces itself (a shell script under `set -x`,
say) writes `PS4`-prefixed lines to standard error; the wrapper uses the
`PS4` prefix to tell those trace lines apart from real error text. The wrapper
keeps quiet when the command succeeded. When the command failed, it prints a
Markdown report. Cron mails what a job prints, so a mail is sent only for a
failure. A run counts as a failure in three cases:

- the exit code is not 0;
- the policy checks standard error (the default, switched off by `-i`) and
  the standard error holds visible text once the trace lines are removed;
- the policy checks standard output (switched on by `-s`) and the standard
  output holds visible text.

Once the command has run and its capture files have been read, the wrapper
exits with the command's status, or with `-1` when the command reported no
exit code (it was killed by a signal, say), provided the report, if any, can
be written to standard output. Before that point it exits 1: for the version
banner, the usage message and an unknown parameter (src/main.rs:43, 50, 112),
and for an error creating the temporary directory, spawning the command or
reading a capture file, which the `?` operators pass up out of `main`.

The model is in four modules:

- `Seqs`: order-preserving filtering, as done by `Iterator::filter` followed
  by `collect`.
- `Text`: the Rust string operations the program relies on:
  - `starts_with` and `join`, which the program calls, and a `split` on a
    separator, which it does not call: `SplitOn` is there only as the inverse
    of `join`, to state that the command line gives its words back;
  - `str::lines`, which splits at `\n` and drops one `\r` before it;
  - `trim`, with the Unicode `White_Space` set;
  - decimal printing of an integer.
- `CronClearer`: the logic of `main`:
  - the partition of the arguments into flags and command tokens;
  - the flag loop, as the method `ResolveFlags` and the function `ScanFlags`;
  - the early exits;
  - `Exec` and its `Display`;
  - the trace filter, with `PS4` as an input that defaults to `"+ "`;
  - the status, and the failure condition;
  - the report, written out `println!` by `println!` in the method
    `WriteReport` and specified by the function `Report`;
  - the exit code;
  - the whole run, as the function `Run` and the method `RunWrapper`.
- `Scenarios`: the runs of the integration tests, worked out on the model.

Running the command and reading the capture files are not modelled. The
model takes these as inputs:

- the arguments;
- the `PS4` variable;
- the `Execution` the run produced: either the exit code, the captured trace
  text and the captured standard output, or `IoFailure`.

## Definitions

Each part of the program is defined once, by the function or predicate below.
The lemmas and methods in the "## Model" table state what these definitions
mean.

| definition | source | properties stated by |
|---|---|---|
| Text.StartsWith | src/main.rs:38 | used by `CronClearer.Partition` and `CronClearer.KeptLines` |
| Text.Join | src/main.rs:19 | `Text.SplitOnJoin`, `Text.LinesOfJoin`, `Text.JoinOfLines` |
| Text.Lines | src/main.rs:75 | its own ensures, `Text.LinesCons`, `Text.LinesAppend`, `Text.FinalNewlineOptional` |
| Text.Trim | src/main.rs:85 | its own ensures, `Text.TrimIsInfix`, `Text.TrimDropsFinalWhitespace` |
| Text.IntToDecimal | src/main.rs:90 | `Text.IntToDecimalRoundTrip` |
| CronClearer.CommandLine | src/main.rs:17-20 | `CronClearer.CommandLineWords` |
| CronClearer.IsFlag | src/main.rs:38 | the `starts_with("-")` test of the partition; used by `CronClearer.Partition` |
| CronClearer.Partition | src/main.rs:38 | its own ensures |
| CronClearer.DefaultPolicy | src/main.rs:35-36 | standard error checked, standard output not; `CronClearer.ResolvePolicy` |
| CronClearer.IsIgnoreTextFlag | src/main.rs:46 | `-i` or `--ignore-text`; `CronClearer.ResolvePolicy` |
| CronClearer.IsStdoutFlag | src/main.rs:47 | `-s` or `--stdout`; `CronClearer.ResolvePolicy` |
| CronClearer.StopFor | src/main.rs:40-52 | `CronClearer.ScanFlagsFirstStop` |
| CronClearer.ApplyFlag | src/main.rs:40-52 | `CronClearer.ScanFlagsStops`, `CronClearer.ScanFlagsPolicy`, `CronClearer.ScanFlagsRepeat` |
| CronClearer.ScanFlags | src/main.rs:35-53 | `CronClearer.ResolveFlags` (the loop), `CronClearer.ScanStopPersists`, `CronClearer.ScanFlagsStops`, `CronClearer.ScanFlagsFirstStop`, `CronClearer.ScanFlagsPolicy`, `CronClearer.ScanFlagsRepeat` |
| CronClearer.Resolve | src/main.rs:38-61 | `CronClearer.ResolveEarlyExit`, `CronClearer.ResolveCommand`, `CronClearer.ResolvePolicy`, `CronClearer.ResolveFirstBadFlag` |
| CronClearer.TracePrefix | src/main.rs:72 | `PS4` when set to valid Unicode, `"+ "` otherwise; used by `CronClearer.Run` |
| CronClearer.KeptLines | src/main.rs:74-77 | its own ensures, `CronClearer.KeptLinesAppend` |
| CronClearer.FilterTrace | src/main.rs:74-78 | the kept lines joined by `\n`: `CronClearer.EmptyPrefixRemovesAll`, `CronClearer.AllPrefixedRemovesAll`, `CronClearer.FilterTraceLines`, `CronClearer.FilterTraceIdempotent`, `CronClearer.FilterTraceNotAlwaysIdempotent`, `CronClearer.NothingFilteredHidesTrace` |
| CronClearer.Status | src/main.rs:80 | `CronClearer.NonZeroStatusFails` |
| CronClearer.Fails | src/main.rs:84-87 | `CronClearer.FailsIff`, `CronClearer.NonZeroStatusFails`, `CronClearer.IgnoreTextOnlyStatus` |
| CronClearer.Line | src/main.rs:88-99 | the text one `println!` writes, its argument followed by `\n`; `CronClearer.WriteReport` |
| CronClearer.Title | src/main.rs:88 | the report's first line; `CronClearer.HeadingLines` |
| CronClearer.StatusLine | src/main.rs:90 | `## Resultcode: <status>`, which `Heading` prints after a blank line; `CronClearer.HeadingLines`, `Text.IntToDecimalRoundTrip` |
| CronClearer.Heading | src/main.rs:88-90 | `CronClearer.HeadingLines` |
| CronClearer.Section | src/main.rs:91-94 | `CronClearer.LinesOfSection` |
| CronClearer.ShowsTrace | src/main.rs:96 | `CronClearer.NothingFilteredHidesTrace`, `CronClearer.ReportLines` |
| CronClearer.Report | src/main.rs:88-99 | `CronClearer.WriteReport` (the `println!` calls), `CronClearer.ReportLines` |
| CronClearer.Run | src/main.rs:33-103 | `CronClearer.RunWrapper` (the step-by-step `main`), `CronClearer.RunExitCode`, `CronClearer.RunReportsFailure`, and the lemmas of `Scenarios` |

## Model

| member | source | states |
|---|---|---|
| Seqs.Filter | src/main.rs:74-77 | the result is no longer than the input; every kept element is in the input and accepted; every accepted element of the input is kept |
| Seqs.FilterAppend | src/main.rs:74-77 | filtering commutes with concatenation |
| Seqs.FilterIdempotent | src/main.rs:74-77 | filtering twice with the same predicate is filtering once |
| Seqs.FilterMember | src/main.rs:74-77 | an accepted value is in the filtered sequence exactly when it is in the original |
| Text.SplitOnJoin | src/main.rs:19 | splitting a `join` on a separator that no part contains gives the parts back |
| Text.Lines | src/main.rs:75 | no line holds `\n`; there are no lines exactly when the text is empty |
| Text.LinesCons | src/main.rs:75 | a line followed by `\n` contributes that line, less one trailing `\r`, and then the lines of the rest |
| Text.LinesAppend | src/main.rs:75 | text that ends in `\n` can be split off: the lines of `a + b` are the lines of `a` followed by those of `b` |
| Text.LinesOfJoin | src/main.rs:75-78 | lines with no `\n` and no trailing `\r`, the last one not empty, come back from `lines` after a `join("\n")` |
| Text.JoinOfLines | src/main.rs:75-78 | for text with no `\r\n`, joining its lines with `\n` gives the text back, less one final `\n` |
| Text.FinalNewlineOptional | src/main.rs:75 | adding `\n` to text that ends in neither `\n` nor `\r` changes none of its lines |
| Text.TrimStart | src/main.rs:85 | the result is a suffix of the input, everything removed is whitespace, and the result does not start with whitespace |
| Text.TrimEnd | src/main.rs:85 | the result is a prefix of the input, everything removed is whitespace, and the result does not end with whitespace |
| Text.Trim | src/main.rs:85-86 | the result is empty exactly when the text is all whitespace; otherwise it neither starts nor ends with whitespace |
| Text.TrimIsInfix | src/main.rs:85 | trimming keeps one contiguous part of the text and removes only whitespace before and after it |
| Text.TrimDropsFinalWhitespace | src/main.rs:96 | a whitespace character at the end never changes what the text trims to |
| Text.IntToDecimalRoundTrip | src/main.rs:90 | the printed status is an optional minus sign followed by digits, and it reads back as the status |
| CronClearer.CommandLineWords | src/main.rs:17-21 | the command line is the program, a space, and the parameters joined by spaces; with no parameters it ends in a space; split on spaces it gives back the words |
| CronClearer.Partition | src/main.rs:38 | the flags are the arguments starting with `-` and the command is the rest, both in their original order; together they are a permutation of the arguments |
| CronClearer.ResolveFlags | src/main.rs:35-53 | the flag loop yields what `ScanFlags` specifies: the defaults, `-i` clearing the standard-error check and `-s` setting the standard-output check, leaving at the first other flag |
| CronClearer.ScanStopPersists | src/main.rs:39-53 | after an early exit no later flag is looked at |
| CronClearer.ScanFlagsStops | src/main.rs:39-53 | the loop stops exactly when some flag is not `-i`, `--ignore-text`, `-s` or `--stdout` |
| CronClearer.ScanFlagsFirstStop | src/main.rs:40-52 | the first flag that is not a policy flag decides the exit: version for `-V`/`--version`, usage for `-h`/`--help`, an unknown parameter otherwise |
| CronClearer.ScanFlagsPolicy | src/main.rs:35-36 | when every flag is a policy flag, the policy depends only on which flags occur, not on their order or repetition |
| CronClearer.ScanFlagsRepeat | src/main.rs:39-53 | repeating a flag that was already given changes nothing |
| CronClearer.ResolveEarlyExit | src/main.rs:38-57 | the run ends before executing anything exactly when some argument that starts with `-` is not a policy flag, or every argument starts with `-` |
| CronClearer.ResolveCommand | src/main.rs:55-61 | the program and parameters are the arguments not starting with `-`, in order; no parameter starts with `-`, even one given after the program |
| CronClearer.ResolvePolicy | src/main.rs:35-47 | a resolved run checks standard error unless `-i`/`--ignore-text` is among the arguments, and checks standard output exactly when `-s`/`--stdout` is among them |
| CronClearer.ResolveFirstBadFlag | src/main.rs:38-52 | the leftmost argument that starts with `-` but is not a policy flag decides the early exit, wherever the command tokens stand |
| CronClearer.KeptLines | src/main.rs:74-77 | the kept lines are exactly the lines of the trace that do not start with `PS4`, in their order |
| CronClearer.KeptLinesAppend | src/main.rs:74-77 | the filter decides line by line: complete lines filter independently |
| CronClearer.EmptyPrefixRemovesAll | src/main.rs:72-78 | an empty `PS4` removes every line, so the filtered text is empty |
| CronClearer.AllPrefixedRemovesAll | src/main.rs:74-78 | a trace made only of trace lines filters to the empty text |
| CronClearer.FilterTraceLines | src/main.rs:74-78 | read back line by line, the filtered text gives the kept lines when none of them ends in `\r` and the last is not empty |
| CronClearer.FilterTraceIdempotent | src/main.rs:74-78 | under that condition, filtering the filtered text again changes nothing |
| CronClearer.FilterTraceNotAlwaysIdempotent | src/main.rs:74-78 | without that condition filtering is not idempotent: a kept line followed by an empty line filters to the line and a `\n`, and filtering that again drops the `\n` |
| CronClearer.NothingFilteredHidesTrace | src/main.rs:96 | when no line is removed and the trace has no `\r\n`, the filtered text and the trace trim alike, so the trace section is left out |
| CronClearer.FailsIff | src/main.rs:84-87 | the run fails exactly when the status is not 0, or a checked stream holds a character that is not whitespace |
| CronClearer.NonZeroStatusFails | src/main.rs:80-84 | a non-zero exit code, or none at all (status `-1`), fails whatever the policy and the text |
| CronClearer.IgnoreTextOnlyStatus | src/main.rs:84-87 | with `-i` and without `-s`, only the status counts |
| CronClearer.WriteReport | src/main.rs:88-99 | the `println!` calls, one after the other, write what `Report` specifies, and the trace section only when the filtered text and the trace trim differently |
| CronClearer.ReportLines | src/main.rs:88-99 | read back line by line, the report is the title, the command in backticks, a blank line and `## Resultcode: <status>`; then each of the Err, Std and (when shown) Trace sections, as a blank line, its heading and its body between fences; the printed status reads back as the status |
| CronClearer.LinesOfSection | src/main.rs:91-94 | a section prints a blank line, its heading, and the lines of its body between two fence lines |
| CronClearer.HeadingLines | src/main.rs:88-90 | the report's header is four lines: the title, the command in backticks, a blank line, the status line |
| CronClearer.RunWrapper | src/main.rs:33-103 | the step-by-step `main` produces what `Run` specifies: the output, the reason for an early exit, and the exit code |
| CronClearer.RunExitCode | src/main.rs:33-103 | an early exit or an I/O error prints nothing and exits 1; otherwise the exit code is the status, report or not |
| CronClearer.RunReportsFailure | src/main.rs:72-100 | for a completed run: a report is printed exactly when the run fails, and it is built from the filtered text, that standard output and the raw trace |
| Scenarios.ReturnOneScenario | tests/app_test.rs:58-88 | `return_one`: the run that exits 1 is reported with an empty Err block, its standard output and its trace, and the wrapper exits 1 |
| Scenarios.TraceOnlyReportLines | tests/app_test.rs:63-85 | line by line, the report of a run whose trace is two lines and whose standard error is empty: the header, an empty Err block (one blank line between the fences), the Std block, then the Trace block |
| Scenarios.NonZeroExitReported | src/main.rs:72-100 | under any `PS4`, a resolved run that exits with a non-zero code and leaves nothing on standard error once the trace lines are removed prints the report of its command, that standard output and the raw trace, and exits with the code |
| Scenarios.ReturnOneReportText | tests/app_test.rs:63-84 | the `return_one` report, read line by line, is the tests' expected text word for word, except `## Resultcode: 1` for `## Exit-code: 1` |
| Scenarios.ReturnOneIgnoreTextScenario | tests/app_test.rs:90-120 | `return_two_ignore_text`: `-i` does not hide a non-zero exit; the report and the exit code are those of `return_one` |
| Scenarios.JustStderrIgnoreTextScenario | tests/app_test.rs:51-56 | `just_stderr_ignore_text`: with `-i`, text on standard error of a run that exits 0 prints nothing, and the wrapper exits 0 |
| Scenarios.JustStderrTrailingFlagsScenario | tests/app_test.rs:28 | the arguments of `just_stderr`, as the code handles them: the trailing `-x` is an unknown parameter, so nothing is run or printed, and the wrapper exits 1 |
| Scenarios.JustStderrScenario | tests/app_test.rs:29-48 | the `just_stderr` run without the trailing flags: exit 0 with text on standard error is reported, and the wrapper exits 0 |
| Scenarios.TextOnlyReportLines | tests/app_test.rs:31-46 | line by line, the report of a run whose trace is a single text line: its Err block holds that line, and no Trace section follows |
| Scenarios.JustStderrReportText | tests/app_test.rs:31-45 | the report of the `just_stderr` script, read line by line, is the test's expected text except for the command line, which has no `-x -V`, and `## Resultcode: 0` for `## Exit-code: 0` |
| Scenarios.StdoutCheckScenario | src/main.rs:84-87 | with `-s`, any visible text on standard output fails a run that exits 0 with nothing on standard error: the report is printed and the wrapper exits 0 |
| Scenarios.StdoutUncheckedScenario | src/main.rs:84-87 | without `-s`, the same run prints nothing, whatever its standard output holds, and the wrapper exits 0 |

## Code and tests disagree

The model follows `src/main.rs` in both of these cases.

- The code prints the status line as `## Resultcode: <status>`
  (src/main.rs:90). The expected reports in tests/app_test.rs:34, 66 and 98
  say `## Exit-code: <status>`. The model prints `## Resultcode:`.
- In `just_stderr` (tests/app_test.rs:28) the arguments are
  `./tests/just_stderr.sh -x -V`. The test expects `-x -V` to be passed to the
  script (tests/app_test.rs:32). The code instead takes every argument that
  starts with `-` as one of its own flags, wherever it stands
  (src/main.rs:38). The scan then meets `-x` before `-V`, so the run stops
  with "Unknown parameter: -x", exits 1 and runs nothing. This is
  `Scenarios.JustStderrTrailingFlagsScenario`. The run of the script without
  those flags is `Scenarios.JustStderrScenario`.

## Left out

- Running the command (`execute`), the temporary directory and the capture files are not modelled. Their results are the `Execution` input, and any error creating the directory, spawning the command or reading a capture file is `IoFailure`.
- The 128 KiB read limit (`BUFFER_CAPACITY`) and UTF-8 decoding of the capture files are not modelled, because both belong to the file reading that the model leaves out. The captured texts are taken as given strings.
- The `PS4` variable and the arguments are not read from the environment. They are inputs. The input `PS4` is `None` both when the variable is unset and when it is not valid Unicode, because `std::env::var` returns an error in both cases.
- Write failures are not modelled. Each `println!` of the report (src/main.rs:88-99) panics if standard output cannot be written, which leaves a partial report and exit code 101. `std::env::args` (src/main.rs:38) panics on an argument that is not valid Unicode. The model assumes neither happens, so `CronClearer.Run`, `CronClearer.WriteReport` and `CronClearer.RunExitCode` describe a run whose writes all succeed.
- The text of the version banner, the usage message, the "Unknown parameter" message and the I/O error message is not modelled, because these go to the wrapper's standard error. Each is the `Notice` of an early exit with code 1.
- `CARGO_PKG_VERSION` is not modelled, because it is a build-time constant.
- The status is an unbounded `int` and the exit code equals it. The model leaves out the `i32` range of `code()` and the truncation of the code to 8 bits by the operating system. For example, `-1` shows up as 255.
- Nothing ties the `Execution` to the command. What a command writes or returns is an input, so the test scripts are not modelled. Their output is taken from the tests' expected text.
- At the level of `Run`, the scenario lemmas state each test's output as the value of `Report`. `Scenarios.ReturnOneReportText` and `Scenarios.JustStderrReportText` then state those reports as the tests' literal lines, that is, the text split at `\n`, and not as one literal string. Reading a text as lines loses only a `\r` before a `\n` and whether the text ends in `\n` (`Text.JoinOfLines`); the whole-string equality is not stated for these reports.
- CronClearer.FilterTraceIdempotent: proved only when `RejoinsCleanly` holds, because re-filtering can lose a final `\n` or a `\r`. `CronClearer.FilterTraceNotAlwaysIdempotent` shows the failing case.
- CronClearer.NothingFilteredHidesTrace: proved only for traces without `\r\n` line endings, because `lines` drops a `\r` that the raw trace keeps.
- The test harness itself (tests/app_test.rs:7-24) is not modelled, because it only spawns the built binary.
