/**
 * The runs of the integration tests (tests/app_test.rs), worked out on the
 * model. The test scripts are not part of this model; what they write is
 * taken from the tests' expected text: `return_one.sh` writes
 * "Text in std-out" with `set -x` tracing and exits 1, `just_stderr.sh`
 * writes "Text in std-out" and "Text in std-err" and exits 0.
 */
module Scenarios {
  import opened Seqs
  import opened Text
  import opened CronClearer

  const ReturnOne := "./tests/return_one.sh"
  const JustStderr := "./tests/just_stderr.sh"

  const EchoLine := "+ echo 'Text in std-out'"
  const ExitLine := "+ exit 1"
  const ErrLine := "Text in std-err"
  const OutLine := "Text in std-out"

  /** What `return_one.sh` leaves on standard error: two trace lines. */
  const ReturnOneTrace := EchoLine + "\n" + ExitLine + "\n"
  /** What `just_stderr.sh` leaves on standard error: one line of text. */
  const JustStderrTrace := ErrLine + "\n"
  /** What both scripts write to standard output. */
  const StdOutText := OutLine + "\n"

  // ---------------------------------------------------------------------------
  // Lines of the captured text

  lemma TwoLines(a: string, b: string)
    requires '\n' !in a && '\n' !in b && !EndsWithCr(a) && !EndsWithCr(b)
    ensures Lines(a + "\n" + b + "\n") == [a, b]
  {
    assert a + "\n" + b + "\n" == a + "\n" + (b + "\n");
    LinesCons(a, b + "\n");
    LinesOfLine(b);
  }

  lemma OneLineFacts()
    ensures '\n' !in EchoLine && !EndsWithCr(EchoLine)
    ensures '\n' !in ExitLine && !EndsWithCr(ExitLine)
    ensures '\n' !in ErrLine && !EndsWithCr(ErrLine)
    ensures '\n' !in OutLine && !EndsWithCr(OutLine)
  {
  }

  lemma ReturnOneTraceLines()
    ensures Lines(ReturnOneTrace) == [EchoLine, ExitLine]
  {
    OneLineFacts();
    TwoLines(EchoLine, ExitLine);
  }

  lemma OneLineText()
    ensures Lines(JustStderrTrace) == [ErrLine]
    ensures Lines(StdOutText) == [OutLine]
  {
    OneLineFacts();
    LinesOfLine(ErrLine);
    LinesOfLine(OutLine);
  }

  /** A text that ends in `\n` is printed with one more `\n`: one more, empty, line. */
  lemma BlockLines(s: string)
    requires EndsWithNewline(s)
    ensures Lines(Line(s)) == Lines(s) + [""]
  {
    LinesAppend(s, "\n");
    LinesOfLine("");
  }

  // ---------------------------------------------------------------------------
  // The trace filter on the captured text

  lemma TracePrefixed()
    ensures StartsWith(EchoLine, DefaultPs4) && StartsWith(ExitLine, DefaultPs4)
    ensures !StartsWith(ErrLine, DefaultPs4)
  {
    assert EchoLine[..2] == "+ " && ExitLine[..2] == "+ ";
    assert ErrLine[0] != DefaultPs4[0];
  }

  lemma EmptyTraceFiltered()
    ensures FilterTrace("", TracePrefix(None)) == ""
  {
    assert Lines("") == [];
  }

  /** Both lines of `return_one.sh`'s standard error are trace lines; none is left. */
  lemma ReturnOneTraceFiltered()
    ensures FilterTrace(ReturnOneTrace, TracePrefix(None)) == ""
  {
    ReturnOneTraceLines();
    TracePrefixed();
    AllPrefixedRemovesAll(ReturnOneTrace, DefaultPs4);
  }

  lemma OneLineKept(line: string, ps4: string)
    requires !StartsWith(line, ps4)
    ensures Join(Filter([line], (l: string) => !StartsWith(l, ps4)), "\n") == line
  {
    assert [line][1..] == [];
  }

  /** The line of `just_stderr.sh`'s standard error is not a trace line; it is kept. */
  lemma JustStderrTraceFiltered()
    ensures FilterTrace(JustStderrTrace, TracePrefix(None)) == ErrLine
  {
    OneLineText();
    TracePrefixed();
    OneLineKept(ErrLine, DefaultPs4);
  }

  lemma Visible()
    ensures !IsBlank(ErrLine) && !IsBlank(StdOutText) && !IsBlank(ReturnOneTrace)
  {
    assert !IsWhitespace(ErrLine[0]) && !IsWhitespace(StdOutText[0]) && !IsWhitespace(ReturnOneTrace[0]);
  }

  // ---------------------------------------------------------------------------
  // Command lines

  lemma NotAFlag(arg: string)
    requires |arg| > 0 && arg[0] != '-'
    ensures !IsFlag(arg)
  {
    assert arg[..1] == [arg[0]];
  }

  lemma ProgramsAreNotFlags()
    ensures !IsFlag(ReturnOne) && !IsFlag(JustStderr)
  {
    NotAFlag(ReturnOne);
    NotAFlag(JustStderr);
  }

  lemma PartitionOne(program: string)
    requires !IsFlag(program)
    ensures Partition([program]) == ([], [program])
  {
    var args := [program];
    assert args[1..] == [];
    assert Filter(args[1..], IsFlag) == [] && Filter(args[1..], IsCommandToken) == [];
    assert Filter(args, IsFlag) == [];
    assert Filter(args, IsCommandToken) == [program];
  }

  lemma PartitionTwo(flag: string, program: string)
    requires IsFlag(flag) && !IsFlag(program)
    ensures Partition([flag, program]) == ([flag], [program])
  {
    var args := [flag, program];
    assert args[1..] == [program];
    PartitionOne(program);
    assert Filter([program], IsFlag) == [] && Filter([program], IsCommandToken) == [program];
    assert Filter(args, IsFlag) == [flag] + [] == [flag];
    assert Filter(args, IsCommandToken) == [program];
  }

  lemma ScanOne(flag: string)
    ensures ScanFlags([flag]) == ApplyFlag(DefaultPolicy, flag)
  {
    assert [flag][..0] == [];
  }

  /** A lone program runs with the default policy and no parameters. */
  lemma ResolveProgram(program: string)
    requires !IsFlag(program)
    ensures Resolve([program]) == Resolved(DefaultPolicy, Exec(program, []))
  {
    PartitionOne(program);
  }

  /** A policy flag before a program changes only the policy. */
  lemma ResolveFlagProgram(flag: string, program: string)
    requires IsPolicyFlag(flag) && !IsFlag(program)
    ensures Resolve([flag, program]) == Resolved(ApplyFlag(DefaultPolicy, flag).policy, Exec(program, []))
  {
    PolicyFlagIsFlag(flag);
    PartitionTwo(flag, program);
    ScanOne(flag);
    assert ApplyFlag(DefaultPolicy, flag).Continue?;
    ResolveOf([flag, program], ApplyFlag(DefaultPolicy, flag).policy);
    assert [program][1..] == [];
  }

  lemma PolicyFlagIsFlag(flag: string)
    requires IsPolicyFlag(flag)
    ensures IsFlag(flag)
  {
    PolicyFlagsAreFlags();
  }

  lemma ResolveOf(args: seq<string>, policy: Policy)
    requires Partition(args).1 != [] && ScanFlags(Partition(args).0) == Continue(policy)
    ensures Resolve(args) == Resolved(policy, Exec(Partition(args).1[0], Partition(args).1[1..]))
  {
  }

  lemma FlagPolicies()
    ensures ApplyFlag(DefaultPolicy, "-i") == Continue(Policy(false, false))
    ensures ApplyFlag(DefaultPolicy, "-s") == Continue(Policy(true, true))
  {
  }

  lemma CommandLineNoParams(program: string)
    ensures CommandLine(Exec(program, [])) == program + " "
  {
  }

  lemma PrintedOne()
    ensures IntToDecimal(1) == "1" && IntToDecimal(0) == "0"
  {
  }

  lemma QuotedCommand(program: string)
    ensures "`" + CommandLine(Exec(program, [])) + "`" == "`" + program + " `"
  {
    CommandLineNoParams(program);
  }

  /** The lines of the report on a command without parameters. */
  lemma ReportLinesNoParams(program: string, status: int, stdErr: string, stdOut: string, trace: string)
    requires '\n' !in program
    ensures Lines(Report(Exec(program, []), status, stdErr, stdOut, trace))
            == [Title,
                "`" + program + " `",
                "",
                "## Resultcode: " + IntToDecimal(status)]
               + SectionLines("## Err output:", stdErr)
               + SectionLines("## Std output:", stdOut)
               + (if ShowsTrace(stdErr, trace) then SectionLines("## Trace output:", trace) else [])
  {
    CommandLineNoParams(program);
    assert '\n' !in CommandLine(Exec(program, []));
    QuotedCommand(program);
    ReportLines(Exec(program, []), status, stdErr, stdOut, trace);
  }

  lemma EmptySection(heading: string)
    ensures SectionLines(heading, "") == ["", heading, "```", "", "```"]
  {
    LinesOfLine("");
  }

  lemma LineSection(heading: string, line: string)
    requires '\n' !in line && !EndsWithCr(line)
    ensures SectionLines(heading, line) == ["", heading, "```", line, "```"]
  {
    LinesOfLine(line);
  }

  lemma TextSection(heading: string, text: string)
    requires EndsWithNewline(text)
    ensures SectionLines(heading, text) == ["", heading, "```"] + Lines(text) + ["", "```"]
  {
    BlockLines(text);
  }

  lemma OneLineSection(heading: string, line: string)
    requires '\n' !in line && !EndsWithCr(line)
    ensures SectionLines(heading, line + "\n") == ["", heading, "```", line, "", "```"]
  {
    TextSection(heading, line + "\n");
    LinesOfLine(line);
  }

  lemma TwoLineSection(heading: string, a: string, b: string)
    requires '\n' !in a && '\n' !in b && !EndsWithCr(a) && !EndsWithCr(b)
    ensures SectionLines(heading, a + "\n" + b + "\n") == ["", heading, "```", a, b, "", "```"]
  {
    TextSection(heading, a + "\n" + b + "\n");
    TwoLines(a, b);
  }

  // ---------------------------------------------------------------------------
  // The tests

  /** The report of a run of `return_one.sh`; `return_one` and `return_two_ignore_text` both expect it. */
  function ReturnOneReport(): string
  {
    Report(Exec(ReturnOne, []), 1, "", StdOutText, ReturnOneTrace)
  }

  /**
   * A resolved run with a non-zero exit and nothing left on standard error,
   * under whatever `PS4`, is reported.
   */
  lemma NonZeroExitReported(args: seq<string>, ps4Var: Option<string>, policy: Policy, exec: Exec, code: int, trace: string, out: string)
    requires Resolve(args) == Resolved(policy, exec) && code != 0
    requires FilterTrace(trace, TracePrefix(ps4Var)) == ""
    ensures Run(args, ps4Var, Completed(Some(code), trace, out)) == Outcome(Report(exec, code, "", out, trace), None, code)
  {
    RunOfCompleted(args, ps4Var, Completed(Some(code), trace, out), policy, exec);
  }

  /**
   * `return_one`: a run that exits 1 is reported with an empty error block,
   * its standard output and the trace, and the wrapper exits 1.
   */
  lemma ReturnOneScenario()
    ensures Run([ReturnOne], None, Completed(Some(1), ReturnOneTrace, StdOutText))
            == Outcome(ReturnOneReport(), None, 1)
  {
    ProgramsAreNotFlags();
    ResolveProgram(ReturnOne);
    ReturnOneTraceFiltered();
    NonZeroExitReported([ReturnOne], None, DefaultPolicy, Exec(ReturnOne, []), 1, ReturnOneTrace, StdOutText);
  }

  /**
   * The report of a failed run whose standard error holds only two trace
   * lines, as `return_one.sh`'s does, line by line: the error block is
   * empty and the trace section repeats the two lines.
   */
  lemma TraceOnlyReportLines(program: string, status: int, out: string, t1: string, t2: string)
    requires '\n' !in program
    requires '\n' !in out && !EndsWithCr(out)
    requires '\n' !in t1 && '\n' !in t2 && !EndsWithCr(t1) && !EndsWithCr(t2)
    requires t1 != [] && !IsWhitespace(t1[0])
    ensures Lines(Report(Exec(program, []), status, "", out + "\n", t1 + "\n" + t2 + "\n"))
            == [Title,
                "`" + program + " `",
                "",
                "## Resultcode: " + IntToDecimal(status)]
               + ["", "## Err output:", "```", "", "```"]
               + ["", "## Std output:", "```", out, "", "```"]
               + ["", "## Trace output:", "```", t1, t2, "", "```"]
  {
    var trace := t1 + "\n" + t2 + "\n";
    assert trace[0] == t1[0];
    assert ShowsTrace("", trace);
    ReportLinesNoParams(program, status, "", out + "\n", trace);
    EmptySection("## Err output:");
    OneLineSection("## Std output:", out);
    TwoLineSection("## Trace output:", t1, t2);
  }

  /** `return_two_ignore_text`: `-i` does not hide a non-zero exit; the run is reported as without it. */
  lemma ReturnOneIgnoreTextScenario()
    ensures Run(["-i", ReturnOne], None, Completed(Some(1), ReturnOneTrace, StdOutText))
            == Outcome(ReturnOneReport(), None, 1)
  {
    ProgramsAreNotFlags();
    ResolveFlagProgram("-i", ReturnOne);
    FlagPolicies();
    ReturnOneTraceFiltered();
    NonZeroExitReported(["-i", ReturnOne], None, Policy(false, false), Exec(ReturnOne, []), 1, ReturnOneTrace, StdOutText);
  }

  /** `just_stderr_ignore_text`: with `-i`, text on standard error of a run that exits 0 is not a failure. */
  lemma JustStderrIgnoreTextScenario()
    ensures Run(["-i", JustStderr], None, Completed(Some(0), JustStderrTrace, StdOutText))
            == Outcome("", None, 0)
  {
    ProgramsAreNotFlags();
    ResolveFlagProgram("-i", JustStderr);
    FlagPolicies();
    JustStderrTraceFiltered();
    RunOfCompleted(["-i", JustStderr], None, Completed(Some(0), JustStderrTrace, StdOutText), Policy(false, false), Exec(JustStderr, []));
  }

  /**
   * `just_stderr` calls the wrapper with `-x` and `-V` after the program.
   * Every flag-shaped argument goes to the wrapper, wherever it stands, so
   * the run stops at the unknown `-x` before the program is started, and
   * the wrapper exits 1 with no report.
   */
  lemma JustStderrTrailingFlagsScenario(execution: Execution)
    ensures Run([JustStderr, "-x", "-V"], None, execution)
            == Outcome("", Some(UnknownParameter("-x")), 1)
  {
    TrailingFlagsResolve();
    RunEarly([JustStderr, "-x", "-V"], None, execution, UnknownParameter("-x"));
  }

  lemma TrailingFlagsResolve()
    ensures Resolve([JustStderr, "-x", "-V"]) == EarlyExit(UnknownParameter("-x"))
  {
    var args := [JustStderr, "-x", "-V"];
    ProgramsAreNotFlags();
    assert args[1][..1] == "-";
    assert StopFor(args[1]) == UnknownParameter("-x");
    ResolveFirstBadFlag(args, 1);
  }

  lemma RunEarly(args: seq<string>, ps4Var: Option<string>, execution: Execution, n: Notice)
    requires Resolve(args) == EarlyExit(n)
    ensures Run(args, ps4Var, execution) == Outcome("", Some(n), 1)
  {
  }

  /** The report of a run of `just_stderr.sh` without the trailing flags. */
  function JustStderrReport(): string
  {
    Report(Exec(JustStderr, []), 0, ErrLine, StdOutText, JustStderrTrace)
  }

  /**
   * `just_stderr` as its expected text describes it: a run that exits 0
   * but writes to standard error is reported, the error block holds that
   * text, no trace section follows, and the wrapper exits 0.
   */
  lemma JustStderrScenario()
    ensures Run([JustStderr], None, Completed(Some(0), JustStderrTrace, StdOutText))
            == Outcome(JustStderrReport(), None, 0)
  {
    ProgramsAreNotFlags();
    ResolveProgram(JustStderr);
    JustStderrTraceFiltered();
    Visible();
    RunOfCompleted([JustStderr], None, Completed(Some(0), JustStderrTrace, StdOutText), DefaultPolicy, Exec(JustStderr, []));
  }

  /**
   * The report of a run whose standard error holds one line of text and
   * no trace, as `just_stderr.sh`'s does, line by line: the error block
   * holds that line and no trace section follows.
   */
  lemma TextOnlyReportLines(program: string, status: int, err: string, out: string)
    requires '\n' !in program
    requires '\n' !in err && !EndsWithCr(err) && '\n' !in out && !EndsWithCr(out)
    ensures Lines(Report(Exec(program, []), status, err, out + "\n", err + "\n"))
            == [Title,
                "`" + program + " `",
                "",
                "## Resultcode: " + IntToDecimal(status)]
               + ["", "## Err output:", "```", err, "```"]
               + ["", "## Std output:", "```", out, "", "```"]
  {
    assert err + "\n" == err + ['\n'];
    TrimDropsFinalWhitespace(err, '\n');
    ReportLinesNoParams(program, status, err, out + "\n", err + "\n");
    LineSection("## Err output:", err);
    OneLineSection("## Std output:", out);
  }

  /** With `-s`, visible text on standard output fails a run that exits 0 with nothing on standard error. */
  lemma StdoutCheckScenario(out: string)
    requires !IsBlank(out)
    ensures Run(["-s", JustStderr], None, Completed(Some(0), "", out))
            == Outcome(Report(Exec(JustStderr, []), 0, "", out, ""), None, 0)
  {
    ProgramsAreNotFlags();
    ResolveFlagProgram("-s", JustStderr);
    FlagPolicies();
    EmptyTraceFiltered();
    RunOfCompleted(["-s", JustStderr], None, Completed(Some(0), "", out), Policy(true, true), Exec(JustStderr, []));
  }

  /** Without `-s`, the same run passes silently, whatever it writes to standard output. */
  lemma StdoutUncheckedScenario(out: string)
    ensures Run([JustStderr], None, Completed(Some(0), "", out)) == Outcome("", None, 0)
  {
    ProgramsAreNotFlags();
    ResolveProgram(JustStderr);
    EmptyTraceFiltered();
    assert IsBlank("");
    RunOfCompleted([JustStderr], None, Completed(Some(0), "", out), DefaultPolicy, Exec(JustStderr, []));
  }

  // ---------------------------------------------------------------------------
  // The expected text of the tests, line by line

  lemma StatusText()
    ensures "## Resultcode: " + IntToDecimal(1) == "## Resultcode: 1"
    ensures "## Resultcode: " + IntToDecimal(0) == "## Resultcode: 0"
  {
    PrintedOne();
  }

  lemma ReturnOneLines()
    ensures Lines(ReturnOneReport())
            == [Title, "`" + ReturnOne + " `", "", "## Resultcode: " + IntToDecimal(1)]
               + ["", "## Err output:", "```", "", "```"]
               + ["", "## Std output:", "```", OutLine, "", "```"]
               + ["", "## Trace output:", "```", EchoLine, ExitLine, "", "```"]
  {
    OneLineFacts();
    assert EchoLine[0] == '+';
    TraceOnlyReportLines(ReturnOne, 1, OutLine, EchoLine, ExitLine);
  }

  lemma ReturnOneHeaderText()
    ensures [Title, "`" + ReturnOne + " `", "", "## Resultcode: " + IntToDecimal(1)]
            == ["# Failure or error output for the command:", "`./tests/return_one.sh `", "", "## Resultcode: 1"]
  {
    StatusText();
    assert Title == "# Failure or error output for the command:";
    assert "`" + ReturnOne + " `" == "`./tests/return_one.sh `";
  }

  /**
   * The report of `return_one` and `return_two_ignore_text`, line by line,
   * is their expected text, except that the status line reads
   * `## Resultcode:` where the tests expect `## Exit-code:`.
   */
  lemma ReturnOneReportText()
    ensures Lines(ReturnOneReport())
            == ["# Failure or error output for the command:", "`./tests/return_one.sh `", "", "## Resultcode: 1"]
               + ["", "## Err output:", "```", "", "```"]
               + ["", "## Std output:", "```", "Text in std-out", "", "```"]
               + ["", "## Trace output:", "```", "+ echo 'Text in std-out'", "+ exit 1", "", "```"]
  {
    ReturnOneLines();
    ReturnOneHeaderText();
    assert OutLine == "Text in std-out";
    assert EchoLine == "+ echo 'Text in std-out'" && ExitLine == "+ exit 1";
  }

  lemma JustStderrLines()
    ensures Lines(JustStderrReport())
            == [Title, "`" + JustStderr + " `", "", "## Resultcode: " + IntToDecimal(0)]
               + ["", "## Err output:", "```", ErrLine, "```"]
               + ["", "## Std output:", "```", OutLine, "", "```"]
  {
    OneLineFacts();
    TextOnlyReportLines(JustStderr, 0, ErrLine, OutLine);
  }

  lemma JustStderrHeaderText()
    ensures [Title, "`" + JustStderr + " `", "", "## Resultcode: " + IntToDecimal(0)]
            == ["# Failure or error output for the command:", "`./tests/just_stderr.sh `", "", "## Resultcode: 0"]
  {
    StatusText();
    assert Title == "# Failure or error output for the command:";
    assert "`" + JustStderr + " `" == "`./tests/just_stderr.sh `";
  }

  /**
   * The report of `just_stderr.sh` run without the trailing flags, line by
   * line: the expected text of `just_stderr`, except for the command line
   * (no `-x -V`) and `## Resultcode:` for `## Exit-code:`.
   */
  lemma JustStderrReportText()
    ensures Lines(JustStderrReport())
            == ["# Failure or error output for the command:", "`./tests/just_stderr.sh `", "", "## Resultcode: 0"]
               + ["", "## Err output:", "```", "Text in std-err", "```"]
               + ["", "## Std output:", "```", "Text in std-out", "", "```"]
  {
    JustStderrLines();
    JustStderrHeaderText();
    assert ErrLine == "Text in std-err" && OutLine == "Text in std-out";
  }
}
