/**
 * The decision logic of cronclearer's `main`: resolving the command line,
 * removing shell-trace lines from the captured standard error, deciding
 * whether the run failed, and rendering the failure report. Running the
 * command and reading back its capture files are not modelled: their
 * results (the exit code, the trace text and the standard-output text) are
 * inputs, and so are the arguments and the `PS4` environment variable.
 */
module CronClearer {
  import opened Seqs
  import opened Text

  datatype Option<T> = None | Some(value: T)

  // ---------------------------------------------------------------------------
  // The command to run

  /** `Exec`: an executable command with its parameters. */
  datatype Exec = Exec(program: string, params: seq<string>)

  /** `Exec`'s `Display`: the program, one space, then the parameters joined by single spaces. */
  function CommandLine(e: Exec): string
  {
    e.program + " " + Join(e.params, " ")
  }

  /**
   * The command line is the words of the command separated by single spaces;
   * with no parameters it ends in a space. So, when no word holds a space,
   * splitting it on spaces gives the words back (and one empty word for the
   * trailing space).
   */
  lemma CommandLineWords(e: Exec)
    requires ' ' !in e.program
    requires forall k :: 0 <= k < |e.params| ==> ' ' !in e.params[k]
    ensures e.params == [] ==> CommandLine(e) == e.program + " "
    ensures SplitOn(CommandLine(e), ' ') == [e.program] + (if e.params == [] then [""] else e.params)
  {
    var words := [e.program] + (if e.params == [] then [""] else e.params);
    if e.params == [] {
      assert Join(words, " ") == e.program + " " + "";
    } else {
      assert words[1..] == e.params;
      assert Join(words, " ") == CommandLine(e);
    }
    SplitOnJoin(words, ' ');
  }

  // ---------------------------------------------------------------------------
  // Argument resolution

  /** `s.starts_with("-")`: the token is taken as one of the wrapper's own flags. */
  predicate IsFlag(arg: string)
  {
    StartsWith(arg, "-")
  }

  predicate IsCommandToken(arg: string)
  {
    !IsFlag(arg)
  }

  /**
   * `partition(|s| s.starts_with("-"))`: the flags and the command tokens, each
   * in its original order, wherever in the arguments they stand.
   */
  function Partition(args: seq<string>): (r: (seq<string>, seq<string>))
    ensures r.0 == Filter(args, IsFlag) && r.1 == Filter(args, IsCommandToken)
    ensures multiset(r.0) + multiset(r.1) == multiset(args)
  {
    if args == [] then ([], [])
    else
      var rest := Partition(args[1..]);
      assert args == [args[0]] + args[1..];
      if IsFlag(args[0]) then ([args[0]] + rest.0, rest.1) else (rest.0, [args[0]] + rest.1)
  }

  /** The failure policy: `check_stderr` and `check_stdout`. */
  datatype Policy = Policy(checkStderr: bool, checkStdout: bool)

  const DefaultPolicy := Policy(true, false)

  /** Why the wrapper stopped without a report; each is written to its own standard error. */
  datatype Notice =
    | VersionBanner                 // "cronclearer <version>"
    | UsageText                     // `print_usage`
    | UnknownParameter(flag: string)
    | IoErrorText                   // the `Err` that `main` returns

  /** The state of the flag loop: still going with a policy, or stopped. */
  datatype FlagScan = Continue(policy: Policy) | Stop(notice: Notice)

  predicate IsIgnoreTextFlag(flag: string)
  {
    flag == "-i" || flag == "--ignore-text"
  }

  predicate IsStdoutFlag(flag: string)
  {
    flag == "-s" || flag == "--stdout"
  }

  /** The flags that only adjust the policy; every other flag ends the run. */
  predicate IsPolicyFlag(flag: string)
  {
    IsIgnoreTextFlag(flag) || IsStdoutFlag(flag)
  }

  /** The early exit caused by a flag that is not a policy flag. */
  function StopFor(flag: string): Notice
  {
    if flag == "-V" || flag == "--version" then VersionBanner
    else if flag == "-h" || flag == "--help" then UsageText
    else UnknownParameter(flag)
  }

  /** One turn of the flag loop. */
  function ApplyFlag(policy: Policy, flag: string): FlagScan
  {
    if IsIgnoreTextFlag(flag) then Continue(policy.(checkStderr := false))
    else if IsStdoutFlag(flag) then Continue(policy.(checkStdout := true))
    else Stop(StopFor(flag))
  }

  /** The flag loop, flag by flag from the left, as a function of the flags seen so far. */
  function ScanFlags(flags: seq<string>): FlagScan
    decreases |flags|
  {
    if flags == [] then Continue(DefaultPolicy)
    else match ScanFlags(flags[..|flags| - 1])
      case Stop(n) => Stop(n)
      case Continue(p) => ApplyFlag(p, flags[|flags| - 1])
  }

  /** The `for flag in flags` loop of `main`, leaving through the first early exit it meets. */
  method ResolveFlags(flags: seq<string>) returns (scan: FlagScan)
    ensures scan == ScanFlags(flags)
  {
    var checkStderr, checkStdout := true, false;
    for i := 0 to |flags|
      invariant ScanFlags(flags[..i]) == Continue(Policy(checkStderr, checkStdout))
    {
      var flag := flags[i];
      assert flags[..i + 1][..i] == flags[..i];
      assert flags == flags[..i + 1] + flags[i + 1..];
      if flag == "-V" || flag == "--version" {
        scan := Stop(VersionBanner);
        ScanStopPersists(flags[..i + 1], flags[i + 1..]);
        return;
      } else if flag == "-h" || flag == "--help" {
        scan := Stop(UsageText);
        ScanStopPersists(flags[..i + 1], flags[i + 1..]);
        return;
      } else if flag == "-i" || flag == "--ignore-text" {
        checkStderr := false;
      } else if flag == "-s" || flag == "--stdout" {
        checkStdout := true;
      } else {
        scan := Stop(UnknownParameter(flag));
        ScanStopPersists(flags[..i + 1], flags[i + 1..]);
        return;
      }
    }
    assert flags[..|flags|] == flags;
    scan := Continue(Policy(checkStderr, checkStdout));
  }

  /** Once the loop has stopped, later flags are never looked at. */
  lemma {:induction false} ScanStopPersists(a: seq<string>, b: seq<string>)
    requires ScanFlags(a).Stop?
    ensures ScanFlags(a + b) == ScanFlags(a)
    decreases |b|
  {
    if b == [] {
      assert a + b == a;
    } else {
      var c := b[..|b| - 1];
      assert (a + b)[..|a + b| - 1] == a + c;
      ScanStopPersists(a, c);
    }
  }

  /** The loop stops exactly when some flag is not a policy flag. */
  lemma {:induction false} ScanFlagsStops(flags: seq<string>)
    ensures ScanFlags(flags).Stop? <==> exists f :: f in flags && !IsPolicyFlag(f)
    decreases |flags|
  {
    if flags != [] {
      var init, last := flags[..|flags| - 1], flags[|flags| - 1];
      assert flags == init + [last];
      assert forall f :: f in flags <==> f in init || f == last;
      ScanFlagsStops(init);
      if ScanFlags(init).Stop? {
        var f :| f in init && !IsPolicyFlag(f);
        assert f in flags;
      } else {
        assert ScanFlags(flags) == ApplyFlag(ScanFlags(init).policy, last);
        assert ScanFlags(flags).Stop? <==> !IsPolicyFlag(last);
        if !IsPolicyFlag(last) {
          assert last in flags;
        }
      }
    }
  }

  /** The first flag that is not a policy flag decides the early exit. */
  lemma ScanFlagsFirstStop(flags: seq<string>, k: nat)
    requires k < |flags| && !IsPolicyFlag(flags[k])
    requires forall j :: 0 <= j < k ==> IsPolicyFlag(flags[j])
    ensures ScanFlags(flags) == Stop(StopFor(flags[k]))
  {
    ScanFlagsStops(flags[..k]);
    assert flags[..k + 1][..k] == flags[..k];
    assert ScanFlags(flags[..k + 1]) == Stop(StopFor(flags[k]));
    ScanStopPersists(flags[..k + 1], flags[k + 1..]);
    assert flags[..k + 1] + flags[k + 1..] == flags;
  }

  /**
   * When every flag is a policy flag, `-i`/`--ignore-text` anywhere clears
   * `check_stderr`, `-s`/`--stdout` anywhere sets `check_stdout`, and the
   * defaults stand otherwise: neither order nor repetition matters.
   */
  lemma {:induction false} ScanFlagsPolicy(flags: seq<string>)
    requires forall k :: 0 <= k < |flags| ==> IsPolicyFlag(flags[k])
    ensures ScanFlags(flags) == Continue(Policy(
              !("-i" in flags || "--ignore-text" in flags),
              "-s" in flags || "--stdout" in flags))
    decreases |flags|
  {
    if flags != [] {
      var init := flags[..|flags| - 1];
      assert flags == init + [flags[|flags| - 1]];
      ScanFlagsPolicy(init);
    }
  }

  /** Giving a flag a second time changes nothing further. */
  lemma ScanFlagsRepeat(flags: seq<string>, f: string)
    requires f in flags
    ensures ScanFlags(flags + [f]) == ScanFlags(flags)
  {
    ScanFlagsStops(flags);
    if ScanFlags(flags).Stop? {
      ScanStopPersists(flags, [f]);
    } else {
      ScanFlagsStops(flags + [f]);
      ScanFlagsPolicy(flags);
      ScanFlagsPolicy(flags + [f]);
    }
  }

  /** The resolved run, or the early exit that ends it before anything is executed. */
  datatype Resolution = Resolved(policy: Policy, exec: Exec) | EarlyExit(notice: Notice)

  /** The argument handling of `main` up to the construction of `Exec`. */
  function Resolve(args: seq<string>): Resolution
  {
    var (flags, cmd) := Partition(args);
    match ScanFlags(flags)
    case Stop(n) => EarlyExit(n)
    case Continue(policy) =>
      if cmd == [] then EarlyExit(UsageText)
      else Resolved(policy, Exec(cmd[0], cmd[1..]))
  }

  /**
   * The run ends early exactly when some flag-shaped argument is not a policy
   * flag, or when every argument is flag-shaped (the command is empty).
   */
  lemma ResolveEarlyExit(args: seq<string>)
    ensures Resolve(args).EarlyExit? <==>
              (exists a :: a in args && IsFlag(a) && !IsPolicyFlag(a)) ||
              (forall a :: a in args ==> IsFlag(a))
  {
    var (flags, cmd) := Partition(args);
    ScanFlagsStops(flags);
    assert (forall a :: a in args ==> IsFlag(a)) <==> cmd == [] by {
      if cmd != [] {
        assert cmd[0] in args && !IsFlag(cmd[0]);
      }
    }
  }

  /**
   * A resolved run executes the arguments that do not start with `-`, in their
   * order: the first is the program. No `-` token is ever forwarded, not even
   * one after the program.
   */
  lemma ResolveCommand(args: seq<string>)
    requires Resolve(args).Resolved?
    ensures var e := Resolve(args).exec;
            [e.program] + e.params == Filter(args, IsCommandToken) &&
            forall k :: 0 <= k < |e.params| ==> !IsFlag(e.params[k])
  {
    var cmd := Partition(args).1;
    ResolvedExec(args);
    HeadTail(cmd);
    NoFlagTokens(args, cmd);
  }

  lemma HeadTail<T>(s: seq<T>)
    requires s != []
    ensures [s[0]] + s[1..] == s
  {
  }

  /** The tokens after the first of the command tokens are command tokens too. */
  lemma NoFlagTokens(args: seq<string>, cmd: seq<string>)
    requires cmd == Filter(args, IsCommandToken) && cmd != []
    ensures forall k :: 0 <= k < |cmd[1..]| ==> !IsFlag(cmd[1..][k])
  {
    forall k | 0 <= k < |cmd[1..]| ensures !IsFlag(cmd[1..][k]) {
      assert cmd[1..][k] == cmd[k + 1];
      assert IsCommandToken(cmd[k + 1]);
    }
  }

  lemma ResolvedExec(args: seq<string>)
    requires Resolve(args).Resolved?
    ensures var cmd := Partition(args).1;
            cmd != [] && Resolve(args).exec == Exec(cmd[0], cmd[1..])
  {
  }

  lemma PolicyFlagsAreFlags()
    ensures IsFlag("-i") && IsFlag("--ignore-text") && IsFlag("-s") && IsFlag("--stdout")
  {
    assert "-i"[..1] == "-" && "--ignore-text"[..1] == "-";
    assert "-s"[..1] == "-" && "--stdout"[..1] == "-";
  }

  /** The policy of a resolved run follows the policy flags given anywhere, in any order, any number of times. */
  lemma ResolvePolicy(args: seq<string>)
    requires Resolve(args).Resolved?
    ensures Resolve(args).policy == Policy(
              !("-i" in args || "--ignore-text" in args),
              "-s" in args || "--stdout" in args)
  {
    var flags := Partition(args).0;
    ScanFlagsStops(flags);
    assert forall k :: 0 <= k < |flags| ==> IsPolicyFlag(flags[k]) by {
      forall k | 0 <= k < |flags| ensures IsPolicyFlag(flags[k]) {
        assert flags[k] in flags;
      }
    }
    ScanFlagsPolicy(flags);
    PolicyFlagsAreFlags();
    FilterMember(args, IsFlag, "-i");
    FilterMember(args, IsFlag, "--ignore-text");
    FilterMember(args, IsFlag, "-s");
    FilterMember(args, IsFlag, "--stdout");
  }

  /**
   * Scanning from the left, the first flag-shaped argument that is not a policy
   * flag decides the early exit (version, usage or unknown parameter), whatever
   * follows it and wherever the command tokens stand.
   */
  lemma ResolveFirstBadFlag(args: seq<string>, k: nat)
    requires k < |args| && IsFlag(args[k]) && !IsPolicyFlag(args[k])
    requires forall j :: 0 <= j < k && IsFlag(args[j]) ==> IsPolicyFlag(args[j])
    ensures Resolve(args) == EarlyExit(StopFor(args[k]))
  {
    var before, after := args[..k], args[k + 1..];
    assert args == before + ([args[k]] + after);
    FilterAppend(before, [args[k]] + after, IsFlag);
    FilterAppend([args[k]], after, IsFlag);
    var fb := Filter(before, IsFlag);
    var flags := fb + ([args[k]] + Filter(after, IsFlag));
    assert Filter(args, IsFlag) == flags;
    forall j | 0 <= j < |fb| ensures IsPolicyFlag(flags[j]) {
      assert flags[j] == fb[j];
      assert fb[j] in before;
    }
    assert flags[|fb|] == args[k];
    ScanFlagsFirstStop(flags, |fb|);
  }

  // ---------------------------------------------------------------------------
  // The trace filter

  const DefaultPs4 := "+ "

  /** `std::env::var("PS4").unwrap_or_else(|_| "+ ".to_string())`: a set but empty `PS4` is used as it is. */
  function TracePrefix(ps4Var: Option<string>): string
  {
    match ps4Var
    case Some(v) => v
    case None => DefaultPs4
  }

  /** The lines of the trace that do not start with the trace prefix, in order. */
  function KeptLines(trace: string, ps4: string): (r: seq<string>)
    ensures forall k :: 0 <= k < |r| ==> r[k] in Lines(trace) && !StartsWith(r[k], ps4)
    ensures forall l :: l in Lines(trace) && !StartsWith(l, ps4) ==> l in r
  {
    Filter(Lines(trace), l => !StartsWith(l, ps4))
  }

  /** `std_err`: the kept lines of the trace, joined by `\n`. */
  function FilterTrace(trace: string, ps4: string): string
  {
    Join(KeptLines(trace, ps4), "\n")
  }

  /** The filter decides line by line: complete lines can be filtered separately. */
  lemma KeptLinesAppend(a: string, b: string, ps4: string)
    requires a == [] || EndsWithNewline(a)
    ensures KeptLines(a + b, ps4) == KeptLines(a, ps4) + KeptLines(b, ps4)
  {
    LinesAppend(a, b);
    FilterAppend(Lines(a), Lines(b), l => !StartsWith(l, ps4));
  }

  /** Every line starts with the empty prefix, so an empty `PS4` removes every line. */
  lemma EmptyPrefixRemovesAll(trace: string)
    ensures FilterTrace(trace, "") == ""
  {
    assert forall l :: StartsWith(l, "") by {
      forall l ensures StartsWith(l, "") {
        assert l[..0] == "";
      }
    }
  }

  /** A trace made only of trace lines filters to the empty text. */
  lemma AllPrefixedRemovesAll(trace: string, ps4: string)
    requires forall l :: l in Lines(trace) ==> StartsWith(l, ps4)
    ensures FilterTrace(trace, ps4) == ""
  {
  }

  /** No kept line ends in `\r`, and the last one is not empty: then the filtered text splits back into the kept lines. */
  predicate RejoinsCleanly(kept: seq<string>)
  {
    (forall k :: 0 <= k < |kept| ==> !EndsWithCr(kept[k])) && (kept == [] || kept[|kept| - 1] != [])
  }

  lemma FilterTraceLines(trace: string, ps4: string)
    requires RejoinsCleanly(KeptLines(trace, ps4))
    ensures Lines(FilterTrace(trace, ps4)) == KeptLines(trace, ps4)
  {
    var kept := KeptLines(trace, ps4);
    forall k | 0 <= k < |kept| ensures '\n' !in kept[k] {
      assert kept[k] in Lines(trace);
    }
    LinesOfJoin(kept);
  }

  /** No line of the filtered text starts with the prefix: filtering it again changes nothing. */
  lemma FilterTraceIdempotent(trace: string, ps4: string)
    requires RejoinsCleanly(KeptLines(trace, ps4))
    ensures FilterTrace(FilterTrace(trace, ps4), ps4) == FilterTrace(trace, ps4)
  {
    FilterTraceLines(trace, ps4);
    FilterIdempotent(Lines(trace), l => !StartsWith(l, ps4));
  }

  /**
   * Without that condition it may fail: a kept line followed by a kept
   * empty last line filters to the line and one `\n`, and filtering that
   * again loses the `\n`.
   */
  lemma FilterTraceNotAlwaysIdempotent(a: string, ps4: string)
    requires '\n' !in a && !EndsWithCr(a) && !StartsWith(a, ps4) && ps4 != ""
    ensures FilterTrace(a + "\n\n", ps4) == a + "\n"
    ensures FilterTrace(FilterTrace(a + "\n\n", ps4), ps4) == a
    ensures FilterTrace(FilterTrace(a + "\n\n", ps4), ps4) != FilterTrace(a + "\n\n", ps4)
  {
    KeptBlankLast(a, ps4);
    KeptOneLine(a, ps4);
    assert |a + "\n"| != |a|;
  }

  /** A line and an empty line are both kept and rejoin with one `\n`. */
  lemma KeptBlankLast(a: string, ps4: string)
    requires '\n' !in a && !EndsWithCr(a) && !StartsWith(a, ps4) && ps4 != ""
    ensures FilterTrace(a + "\n\n", ps4) == a + "\n"
  {
    LinesOfBlankLast(a);
    var keep := (l: string) => !StartsWith(l, ps4);
    assert keep(a) && keep("");
    FilterKeepsAll([a, ""], keep);
    assert Join([a, ""], "\n") == a + "\n" + "";
  }

  lemma LinesOfBlankLast(a: string)
    requires '\n' !in a && !EndsWithCr(a)
    ensures Lines(a + "\n\n") == [a, ""]
  {
    assert a + "\n\n" == a + "\n" + Line("");
    LinesCons(a, Line(""));
    LinesOfLine("");
  }

  lemma KeptOneLine(a: string, ps4: string)
    requires '\n' !in a && !EndsWithCr(a) && !StartsWith(a, ps4)
    ensures FilterTrace(a + "\n", ps4) == a
  {
    assert a + "\n" == a + "\n" + "";
    LinesCons(a, "");
  }

  /**
   * When no line was removed and the trace has no CRLF line endings, the
   * filtered text and the trace trim to the same text, so the report leaves
   * the trace section out.
   */
  lemma NothingFilteredHidesTrace(trace: string, ps4: string)
    requires forall l :: l in Lines(trace) ==> !StartsWith(l, ps4)
    requires NoCrLf(trace)
    ensures Trim(FilterTrace(trace, ps4)) == Trim(trace)
  {
    KeepsEveryLine(trace, ps4);
    JoinOfLines(trace);
    TrimDropFinalNewline(trace);
  }

  lemma KeepsEveryLine(trace: string, ps4: string)
    requires forall l :: l in Lines(trace) ==> !StartsWith(l, ps4)
    ensures FilterTrace(trace, ps4) == Join(Lines(trace), "\n")
  {
    var lines := Lines(trace);
    forall k | 0 <= k < |lines| ensures !StartsWith(lines[k], ps4) {
      assert lines[k] in lines;
    }
    FilterKeepsAll(lines, l => !StartsWith(l, ps4));
  }

  // ---------------------------------------------------------------------------
  // Outcome classification

  /** `output.status.code().unwrap_or(-1)`: a process ended by a signal has no code. */
  function Status(code: Option<int>): int
  {
    match code
    case Some(c) => c
    case None => -1
  }

  /** The condition under which `main` writes the report. */
  predicate Fails(policy: Policy, status: int, stdErr: string, stdOut: string)
  {
    status != 0
    || (policy.checkStderr && Trim(stdErr) != "")
    || (policy.checkStdout && Trim(stdOut) != "")
  }

  /** Visible text is a character that is not whitespace. */
  predicate HasText(s: string)
  {
    exists k :: 0 <= k < |s| && !IsWhitespace(s[k])
  }

  /**
   * The run fails exactly when the status is not 0, or the policy checks
   * standard error and the filtered text shows a non-whitespace character,
   * or it checks standard output and that shows one.
   */
  lemma FailsIff(policy: Policy, status: int, stdErr: string, stdOut: string)
    ensures Fails(policy, status, stdErr, stdOut) <==>
              status != 0
              || (policy.checkStderr && HasText(stdErr))
              || (policy.checkStdout && HasText(stdOut))
  {
    assert Trim(stdErr) == [] <==> IsBlank(stdErr);
    assert Trim(stdOut) == [] <==> IsBlank(stdOut);
  }

  /** A non-zero status, or no exit code at all, fails whatever the policy and the text. */
  lemma NonZeroStatusFails(policy: Policy, code: Option<int>, stdErr: string, stdOut: string)
    requires code.None? || code.value != 0
    ensures Fails(policy, Status(code), stdErr, stdOut)
  {
  }

  /** With `-i` and without `-s`, only the status counts. */
  lemma IgnoreTextOnlyStatus(status: int, stdErr: string, stdOut: string)
    ensures Fails(Policy(false, false), status, stdErr, stdOut) <==> status != 0
  {
  }

  // ---------------------------------------------------------------------------
  // The report

  /** What one `println!` writes. */
  function Line(s: string): string
  {
    s + "\n"
  }

  /** A block of the report: a blank line and its heading, then the body between two fences. */
  function Section(heading: string, body: string): string
  {
    Line("\n" + heading) + Line("```\n" + body + "\n```")
  }

  const Title := "# Failure or error output for the command:"

  /** The status line, printed after a blank line. */
  function StatusLine(status: int): string
  {
    "## Resultcode: " + IntToDecimal(status)
  }

  /** The header, the command line in backticks, and the status. */
  function Heading(exec: Exec, status: int): string
  {
    Line(Title) + Line("`" + CommandLine(exec) + "`") + Line("\n" + StatusLine(status))
  }

  /** The trace section is shown when the filtered text and the raw trace trim differently. */
  predicate ShowsTrace(stdErr: string, trace: string)
  {
    Trim(stdErr) != Trim(trace)
  }

  /** The failure report, in the order `main` prints it. */
  function Report(exec: Exec, status: int, stdErr: string, stdOut: string, trace: string): string
  {
    Heading(exec, status) + Section("## Err output:", stdErr) + Section("## Std output:", stdOut)
    + (if ShowsTrace(stdErr, trace) then Section("## Trace output:", trace) else "")
  }

  /** `main`'s `println!` calls for the report, one after the other. */
  method WriteReport(exec: Exec, status: int, stdErr: string, stdOut: string, trace: string) returns (out: string)
    ensures out == Report(exec, status, stdErr, stdOut, trace)
  {
    out := Line(Title);
    out := out + Line("`" + CommandLine(exec) + "`");
    out := out + Line("\n" + StatusLine(status));
    var written := out;
    out := out + Line("\n" + "## Err output:");
    out := out + Line("```\n" + stdErr + "\n```");
    Associative(written, Line("\n" + "## Err output:"), Line("```\n" + stdErr + "\n```"));
    written := out;
    out := out + Line("\n" + "## Std output:");
    out := out + Line("```\n" + stdOut + "\n```");
    Associative(written, Line("\n" + "## Std output:"), Line("```\n" + stdOut + "\n```"));
    written := out;
    if Trim(stdErr) != Trim(trace) {
      out := out + Line("\n" + "## Trace output:");
      out := out + Line("```\n" + trace + "\n```");
      Associative(written, Line("\n" + "## Trace output:"), Line("```\n" + trace + "\n```"));
    } else {
      assert out == out + "";
    }
  }

  /** A line holding no line break and not ending in `\r` reads back as itself. */
  lemma LinesOfLine(x: string)
    requires '\n' !in x && !EndsWithCr(x)
    ensures Lines(Line(x)) == [x]
  {
    assert Line(x) == x + "\n" + "";
    LinesCons(x, "");
  }

  /** A `println!` of a heading that starts with `\n` prints a blank line, then the heading. */
  lemma LinesOfHeadingLine(x: string)
    requires '\n' !in x && !EndsWithCr(x)
    ensures Lines(Line("\n" + x)) == ["", x]
  {
    assert Line("\n" + x) == "" + "\n" + Line(x);
    LinesCons("", Line(x));
    LinesOfLine(x);
  }

  /** A fenced body prints the opening fence, the lines of the body, then the closing fence. */
  lemma LinesOfFence(body: string)
    ensures Lines(Line("```\n" + body + "\n```")) == ["```"] + Lines(Line(body)) + ["```"]
  {
    var fence := "```";
    assert "```\n" == fence + "\n" && "\n```" == "\n" + fence;
    assert Line("```\n" + body + "\n```") == fence + "\n" + (Line(body) + Line(fence));
    LinesCons(fence, Line(body) + Line(fence));
    LinesAppend(Line(body), Line(fence));
    LinesOfLine(fence);
  }

  /** The lines a section prints: a blank line, the heading, the fences around the lines of the body. */
  function SectionLines(heading: string, body: string): seq<string>
  {
    ["", heading, "```"] + Lines(Line(body)) + ["```"]
  }

  lemma LinesOfSection(heading: string, body: string)
    requires '\n' !in heading && !EndsWithCr(heading)
    ensures Lines(Section(heading, body)) == SectionLines(heading, body)
  {
    LinesAppend(Line("\n" + heading), Line("```\n" + body + "\n```"));
    LinesOfHeadingLine(heading);
    LinesOfFence(body);
    Regroup("", heading, "```", Lines(Line(body)), "```");
  }

  lemma Regroup<T>(a: T, b: T, c: T, middle: seq<T>, d: T)
    ensures [a, b] + ([c] + middle + [d]) == [a, b, c] + middle + [d]
  {
  }

  /**
   * Read back line by line (the command line holding no line break), the
   * report is the header, the command line in backticks, a blank line, the
   * status line, then the Err, Std and (when shown) Trace sections, each a
   * blank line, its heading and its body between fences; the number on the
   * status line reads back as the status.
   */
  lemma ReportLines(exec: Exec, status: int, stdErr: string, stdOut: string, trace: string)
    requires '\n' !in CommandLine(exec)
    ensures Lines(Report(exec, status, stdErr, stdOut, trace))
            == [Title, "`" + CommandLine(exec) + "`", "", "## Resultcode: " + IntToDecimal(status)]
               + SectionLines("## Err output:", stdErr)
               + SectionLines("## Std output:", stdOut)
               + (if ShowsTrace(stdErr, trace) then SectionLines("## Trace output:", trace) else [])
    ensures IsNumeral(IntToDecimal(status)) && NumeralValue(IntToDecimal(status)) == status
  {
    IntToDecimalRoundTrip(status);
    HeadingLines(exec, status);
    HeadingsAreOneLine();
    LinesOfSection("## Err output:", stdErr);
    LinesOfSection("## Std output:", stdOut);
    var x := if ShowsTrace(stdErr, trace) then Section("## Trace output:", trace) else "";
    if ShowsTrace(stdErr, trace) {
      LinesOfSection("## Trace output:", trace);
    }
    LinesOfParts(Heading(exec, status), Section("## Err output:", stdErr), Section("## Std output:", stdOut), x);
  }

  /** Texts that each end a line read back as their lines, one after the other. */
  lemma LinesOfParts(a: string, b: string, c: string, d: string)
    requires EndsWithNewline(a) && EndsWithNewline(b) && EndsWithNewline(c)
    ensures Lines(a + b + c + d) == Lines(a) + Lines(b) + Lines(c) + Lines(d)
  {
    LinesAppend(a, b);
    assert EndsWithNewline(a + b) by { assert (a + b)[|a + b| - 1] == b[|b| - 1]; }
    LinesAppend(a + b, c);
    assert EndsWithNewline(a + b + c) by { assert (a + b + c)[|a + b + c| - 1] == c[|c| - 1]; }
    LinesAppend(a + b + c, d);
  }

  /** Text followed by a printed integer holds no line break and does not end in `\r`, if the text holds no line break. */
  lemma PrintedIntegerIsOneLine(i: int, before: string)
    requires '\n' !in before
    ensures '\n' !in before + IntToDecimal(i) && !EndsWithCr(before + IntToDecimal(i))
  {
    var n := IntToDecimal(i);
    IntToDecimalRoundTrip(i);
    forall k | 0 <= k < |n| ensures n[k] == '-' || IsDigit(n[k]) {
      if k > 0 && n[0] == '-' {
        assert n[k] == n[1..][k - 1];
      }
    }
    assert (before + n)[|before + n| - 1] == n[|n| - 1];
  }

  lemma HeadingLines(exec: Exec, status: int)
    requires '\n' !in CommandLine(exec)
    ensures Lines(Heading(exec, status))
            == [Title, "`" + CommandLine(exec) + "`", "", "## Resultcode: " + IntToDecimal(status)]
  {
    var command := "`" + CommandLine(exec) + "`";
    assert '\n' !in command;
    PrintedIntegerIsOneLine(status, "## Resultcode: ");
    HeadingsAreOneLine();
    LinesOfThreeLines(Title, command, StatusLine(status));
  }

  lemma HeadingsAreOneLine()
    ensures '\n' !in Title && !EndsWithCr(Title)
    ensures '\n' !in "## Err output:" && !EndsWithCr("## Err output:")
    ensures '\n' !in "## Std output:" && !EndsWithCr("## Std output:")
    ensures '\n' !in "## Trace output:" && !EndsWithCr("## Trace output:")
  {
  }

  /** Three printed lines, the last after a blank line, read back as four lines. */
  lemma LinesOfThreeLines(a: string, b: string, c: string)
    requires '\n' !in a && !EndsWithCr(a) && '\n' !in b && !EndsWithCr(b) && '\n' !in c && !EndsWithCr(c)
    ensures Lines(Line(a) + Line(b) + Line("\n" + c)) == [a, b, "", c]
  {
    LinesOfLine(a);
    LinesOfLine(b);
    LinesOfHeadingLine(c);
    LinesAppend(Line(a), Line(b));
    LinesAppend(Line(a) + Line(b), Line("\n" + c));
    FourLines(a, b, "", c);
  }

  lemma FourLines(a: string, b: string, c: string, d: string)
    ensures [a] + [b] + [c, d] == [a, b, c, d]
  {
  }

  // ---------------------------------------------------------------------------
  // The whole run

  /** What running the command and reading back its capture files produced. */
  datatype Execution =
    | Completed(code: Option<int>, trace: string, stdout: string)
    | IoFailure   // the temporary directory, a capture file or the spawn failed

  /** What the wrapper writes to its standard output, why it stopped early if it did, and its exit code. */
  datatype Outcome = Outcome(report: string, notice: Option<Notice>, exitCode: int)

  /** `main` as a function of its inputs. */
  function Run(args: seq<string>, ps4Var: Option<string>, execution: Execution): Outcome
  {
    match Resolve(args)
    case EarlyExit(n) => Outcome("", Some(n), 1)
    case Resolved(policy, exec) =>
      match execution
      case IoFailure => Outcome("", Some(IoErrorText), 1)
      case Completed(code, trace, stdout) =>
        var stdErr := FilterTrace(trace, TracePrefix(ps4Var));
        var status := Status(code);
        var report := if Fails(policy, status, stdErr, stdout) then Report(exec, status, stdErr, stdout, trace) else "";
        Outcome(report, None, status)
  }

  /**
   * `main` step by step: the flag loop, the early exits, then the report
   * written one `println!` at a time.
   */
  method RunWrapper(args: seq<string>, ps4Var: Option<string>, execution: Execution) returns (outcome: Outcome)
    ensures outcome == Run(args, ps4Var, execution)
  {
    var (flags, cmd) := Partition(args);
    var scan := ResolveFlags(flags);
    if scan.Stop? {
      return Outcome("", Some(scan.notice), 1);
    }
    if cmd == [] {
      return Outcome("", Some(UsageText), 1);
    }
    var exec := Exec(cmd[0], cmd[1..]);
    if execution.IoFailure? {
      return Outcome("", Some(IoErrorText), 1);
    }
    var ps4 := TracePrefix(ps4Var);
    var traceContent := execution.trace;
    var stdErr := FilterTrace(traceContent, ps4);
    var status := Status(execution.code);
    var stdOut := execution.stdout;
    RunOfCompleted(args, ps4Var, execution, scan.policy, exec);
    var out := "";
    if status != 0 || (scan.policy.checkStderr && Trim(stdErr) != "") || (scan.policy.checkStdout && Trim(stdOut) != "") {
      out := WriteReport(exec, status, stdErr, stdOut, traceContent);
    }
    return Outcome(out, None, status);
  }

  lemma RunOfCompleted(args: seq<string>, ps4Var: Option<string>, execution: Execution, policy: Policy, exec: Exec)
    requires Resolve(args) == Resolved(policy, exec) && execution.Completed?
    ensures var stdErr := FilterTrace(execution.trace, TracePrefix(ps4Var));
            var status := Status(execution.code);
            Run(args, ps4Var, execution)
            == Outcome(if Fails(policy, status, stdErr, execution.stdout)
                       then Report(exec, status, stdErr, execution.stdout, execution.trace) else "",
                       None, status)
  {
  }

  /**
   * Early exits write nothing to standard output and exit with 1; otherwise
   * the exit code is the status (`-1` without an exit code), whether or not
   * the report is written.
   */
  lemma RunExitCode(args: seq<string>, ps4Var: Option<string>, execution: Execution)
    ensures var o := Run(args, ps4Var, execution);
            (o.notice.Some? <==> Resolve(args).EarlyExit? || execution.IoFailure?) &&
            (o.notice.Some? ==> o.report == "" && o.exitCode == 1) &&
            (o.notice.None? ==> o.exitCode == Status(execution.code))
  {
  }

  /**
   * A resolved run that completed writes a report exactly when it fails;
   * the report then carries the filtered trace as its error output and the
   * raw trace only when the two trim differently.
   */
  lemma RunReportsFailure(args: seq<string>, ps4Var: Option<string>, code: Option<int>, trace: string, stdout: string)
    requires Resolve(args).Resolved?
    ensures var o := Run(args, ps4Var, Completed(code, trace, stdout));
            var r := Resolve(args);
            var stdErr := FilterTrace(trace, TracePrefix(ps4Var));
            (o.report != "" <==> Fails(r.policy, Status(code), stdErr, stdout)) &&
            (o.report != "" ==> o.report == Report(r.exec, Status(code), stdErr, stdout, trace))
  {
    var r := Resolve(args);
    var stdErr := FilterTrace(trace, TracePrefix(ps4Var));
    assert |Report(r.exec, Status(code), stdErr, stdout, trace)| >= |Heading(r.exec, Status(code))| >= |Line(Title)| > 0;
  }
}
