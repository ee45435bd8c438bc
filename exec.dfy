/**
 * The process helpers of utils/exec.go. Whether a command is available and
 * what running it prints are facts about the machine; they enter the model
 * as parameters. What the helpers do with them (the errors, the output
 * lines, the stripping of unprintable runes) is modelled.
 */
module Exec {
  import opened Wrappers
  import opened Text
  import ExecUnix

  /** The errors of the helpers: ErrApplicationNotFound wrapped with the
      command name, or an ErrExec. */
  datatype ExecError =
    | ApplicationNotFound(name: string)
    | ErrExec(exitCode: int, output: string, errOutput: string,
              cmd: string, args: seq<string>, subExitCode: int)

  /** What running a process gives: its combined output and its standard
      error, and whether it failed, with the exit code it reported. */
  datatype RunResult =
    | Finished(combined: string, stderr: string)
    | Failed(exitCode: int, combined: string, stderr: string)

  /** The output Error reports: the standard error when it has strictly more
      bytes than the combined output, the combined output otherwise. */
  function ReportedOutput(e: ExecError): (out: string)
    requires e.ErrExec?
    ensures out == e.output || out == e.errOutput
    ensures Utf8Len(out) >= Utf8Len(e.output) && Utf8Len(out) >= Utf8Len(e.errOutput)
    ensures Utf8Len(e.errOutput) == Utf8Len(e.output) ==> out == e.output
  {
    if Utf8Len(e.errOutput) > Utf8Len(e.output) then e.errOutput else e.output
  }

  const ExecFailedPrefix: string := "application execution failed: "

  /** The message of an error. */
  function ErrorText(e: ExecError): string {
    match e
    case ApplicationNotFound(name) => "application not found: " + name
    case ErrExec(_, _, _, _, _, _) =>
      ExecFailedPrefix + e.cmd + " " + Join(e.args, " ")
      + ": rc " + IntToString(e.exitCode) + ": " + ReportedOutput(e)
  }

  /** The message names the command first, then the arguments joined by
      spaces, and ends with the exit code and the longer output. */
  lemma ErrorTextShape(e: ExecError)
    requires e.ErrExec?
    ensures StartsWith(ErrorText(e), ExecFailedPrefix + e.cmd + " ")
    ensures EndsWith(ErrorText(e), ": rc " + IntToString(e.exitCode) + ": " + ReportedOutput(e))
    ensures var head := ExecFailedPrefix + e.cmd + " ";
            var tail := ": rc " + IntToString(e.exitCode) + ": " + ReportedOutput(e);
            && |ErrorText(e)| == |head| + |Join(e.args, " ")| + |tail|
            && ErrorText(e)[|head|..|ErrorText(e)| - |tail|] == Join(e.args, " ")
  {
    var head := ExecFailedPrefix + e.cmd + " ";
    var mid := Join(e.args, " ");
    var tail := ": rc " + IntToString(e.exitCode) + ": " + ReportedOutput(e);
    var s := head + mid + tail;
    Regroup(head + mid, ": rc ", IntToString(e.exitCode), ": ", ReportedOutput(e));
    assert ErrorText(e) == s;
    assert s[..|head|] == head;
    assert s[|s| - |tail|..] == tail;
    assert s[|head|..|s| - |tail|] == mid;
  }

  /** The grouping of the message's last four pieces. */
  lemma Regroup(x: string, a: string, b: string, c: string, d: string)
    ensures x + a + b + c + d == x + (a + b + c + d)
  {
  }

  /** The lines of a successful run: the combined output split at every
      newline, each line trimmed of white space. */
  function OutputLines(out: string): (lines: seq<string>)
    ensures |lines| == multiset(out)['\n'] + 1
    ensures forall k :: 0 <= k < |lines| ==> '\n' !in lines[k] && Trimmed(lines[k])
  {
    var parts := Split(out, '\n');
    seq(|parts|, k requires 0 <= k < |parts| => TrimSpace(parts[k]))
  }

  /** Output made of trimmed lines, one per newline-separated piece, gives
      back exactly those lines. */
  lemma OutputLinesOfJoin(lines: seq<string>)
    requires |lines| >= 1
    requires forall k :: 0 <= k < |lines| ==> '\n' !in lines[k] && Trimmed(lines[k])
    ensures OutputLines(Join(lines, "\n")) == lines
  {
    SplitJoin(lines, '\n');
    forall k | 0 <= k < |lines|
      ensures TrimSpace(lines[k]) == lines[k]
    {
      TrimSpaceOfTrimmed(lines[k]);
    }
  }

  /** ExecuteQuietPathApplicationWithOutput. An unavailable command is
      reported without running anything; a failed run becomes an ErrExec
      carrying both outputs trimmed; a successful one gives its lines, which
      the loop trims in place. */
  method ExecuteWithOutput(available: bool, cmd: string, args: seq<string>, run: RunResult)
    returns (r: Result<seq<string>, ExecError>, executed: bool)
    ensures executed == available
    ensures !available ==> r == Err(ApplicationNotFound(cmd))
    ensures available && run.Failed? ==>
              r == Err(ErrExec(run.exitCode, TrimSpace(run.combined), TrimSpace(run.stderr), cmd, args, 0))
    ensures available && run.Finished? ==> r == Ok(OutputLines(run.combined))
  {
    if !available {
      return Err(ApplicationNotFound(cmd)), false;
    }
    if run.Failed? {
      var sub := ExecUnix.ParseSubErrorCode(run.stderr);
      return Err(ErrExec(run.exitCode, TrimSpace(run.combined), TrimSpace(run.stderr), cmd, args, sub)), true;
    }
    var parts := Split(run.combined, '\n');
    var lines := parts;
    for idx := 0 to |lines|
      invariant |lines| == |parts|
      invariant forall k :: 0 <= k < idx ==> lines[k] == TrimSpace(parts[k])
      invariant forall k :: idx <= k < |lines| ==> lines[k] == parts[k]
    {
      lines := lines[idx := TrimSpace(lines[idx])];
    }
    assert lines == OutputLines(run.combined);
    return Ok(lines), true;
  }

  /** ExecutePathApplication: the output goes to the terminal, so a failure
      carries only the exit code, the command and its arguments. */
  method ExecutePath(available: bool, cmd: string, args: seq<string>, run: RunResult)
    returns (r: Result<(), ExecError>, executed: bool)
    ensures executed == available
    ensures !available ==> r == Err(ApplicationNotFound(cmd))
    ensures available ==> (r.Ok? <==> run.Finished?)
    ensures available && run.Failed? ==> r == Err(ErrExec(run.exitCode, "", "", cmd, args, 0))
  {
    if !available {
      return Err(ApplicationNotFound(cmd)), false;
    }
    if run.Failed? {
      return Err(ErrExec(run.exitCode, "", "", cmd, args, 0)), true;
    }
    return Ok(()), true;
  }

  /** StripUnsafe, with unicode.IsPrint as the parameter `isPrint`. */
  function StripUnsafe(s: string, isPrint: char -> bool): (r: string)
    ensures |r| <= |s|
    ensures forall i :: 0 <= i < |r| ==> isPrint(r[i])
  {
    if s == [] then []
    else (if isPrint(s[0]) then [s[0]] else []) + StripUnsafe(s[1..], isPrint)
  }

  /** Stripping works piece by piece, so it keeps the order of what it
      keeps. */
  lemma {:induction false} StripUnsafeAppend(a: string, b: string, isPrint: char -> bool)
    ensures StripUnsafe(a + b, isPrint) == StripUnsafe(a, isPrint) + StripUnsafe(b, isPrint)
  {
    if a == [] {
      assert a + b == b;
    } else {
      assert (a + b)[0] == a[0] && (a + b)[1..] == a[1..] + b;
      StripUnsafeAppend(a[1..], b, isPrint);
    }
  }

  /** Exactly the printable runes survive. */
  lemma {:induction false} StripUnsafeKeeps(s: string, isPrint: char -> bool, c: char)
    ensures c in StripUnsafe(s, isPrint) <==> c in s && isPrint(c)
  {
    if s != [] {
      StripUnsafeKeeps(s[1..], isPrint, c);
      assert s == [s[0]] + s[1..];
    }
  }

  /** Printable text is left alone; in particular stripping twice is
      stripping once. */
  lemma {:induction false} StripUnsafePrintable(s: string, isPrint: char -> bool)
    requires forall i :: 0 <= i < |s| ==> isPrint(s[i])
    ensures StripUnsafe(s, isPrint) == s
  {
    if s != [] {
      StripUnsafePrintable(s[1..], isPrint);
      assert [s[0]] + s[1..] == s;
    }
  }

  lemma StripUnsafeIdempotent(s: string, isPrint: char -> bool)
    ensures StripUnsafe(StripUnsafe(s, isPrint), isPrint) == StripUnsafe(s, isPrint)
  {
    StripUnsafePrintable(StripUnsafe(s, isPrint), isPrint);
  }
}
