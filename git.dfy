/**
 * The git helpers of utils/git.go, as far as they compute something from
 * what git prints: the clean-up of output lines, the checks that exactly
 * one line came back, the remote prefix of the default branch, the clone
 * depth and the commit subject limit. Each helper runs git through
 * ExecuteQuietPathApplicationWithOutput; the model takes that call's result
 * as a parameter.
 */
module Git {
  import opened Wrappers
  import opened Text
  import Exec

  /** What the second loop of removeEmptyLines keeps of one line: the line
      trimmed, unless nothing is left. */
  function Kept(line: string): (r: seq<string>)
    ensures |r| <= 1
    ensures forall k :: 0 <= k < |r| ==> r[k] != "" && Trimmed(r[k])
  {
    var l := TrimSpace(line);
    if l == "" then [] else [l]
  }

  /** The lines kept by the second loop of removeEmptyLines: each line
      trimmed, in order, leaving out those that trim to nothing. */
  function NonEmptyTrimmed(lines: seq<string>): (r: seq<string>)
    ensures |r| <= |lines|
    ensures forall k :: 0 <= k < |r| ==> r[k] != "" && Trimmed(r[k])
  {
    if lines == [] then []
    else NonEmptyTrimmed(lines[..|lines| - 1]) + Kept(lines[|lines| - 1])
  }

  /** removeEmptyLines: the input itself when no line is exactly empty,
      otherwise its non-blank lines, trimmed. */
  function CleanLines(lines: seq<string>): seq<string> {
    if "" !in lines then lines else NonEmptyTrimmed(lines)
  }

  /** removeEmptyLines' two loops: one counts the empty lines, the other
      collects the trimmed non-blank ones. */
  method RemoveEmptyLines(lines: seq<string>) returns (r: seq<string>)
    ensures r == CleanLines(lines)
  {
    var cnt := 0;
    for i := 0 to |lines|
      invariant cnt == 0 <==> "" !in lines[..i]
    {
      assert lines[..i + 1] == lines[..i] + [lines[i]];
      if lines[i] == "" {
        cnt := cnt + 1;
      }
    }
    assert lines[..|lines|] == lines;
    if cnt == 0 {
      return lines;
    }
    var filtered := [];
    for i := 0 to |lines|
      invariant filtered == NonEmptyTrimmed(lines[..i])
    {
      assert lines[..i + 1][..i] == lines[..i];
      if lines[i] != "" {
        var l := TrimSpace(lines[i]);
        if l != "" {
          filtered := filtered + [l];
        }
      }
    }
    return filtered;
  }

  /** A line survives exactly when it trims to something, and then in its
      trimmed form. */
  lemma {:induction false} NonEmptyTrimmedHas(lines: seq<string>, x: string)
    ensures x in NonEmptyTrimmed(lines) <==>
              x != "" && exists i :: 0 <= i < |lines| && TrimSpace(lines[i]) == x
  {
    if lines != [] {
      var init := lines[..|lines| - 1];
      var l := TrimSpace(lines[|lines| - 1]);
      NonEmptyTrimmedHas(init, x);
      assert x in NonEmptyTrimmed(lines) <==> x in NonEmptyTrimmed(init) || x in Kept(lines[|lines| - 1]);
      assert x in Kept(lines[|lines| - 1]) <==> x != "" && l == x;
      ExistsInitLast(lines, init, TrimSpace, x);
    }
  }

  /** Some element maps to `x` exactly when some element before the last
      does, or the last does. */
  lemma ExistsInitLast(lines: seq<string>, init: seq<string>, f: string -> string, x: string)
    requires |lines| > 0 && init == lines[..|lines| - 1]
    ensures (exists i :: 0 <= i < |lines| && f(lines[i]) == x) <==>
            (exists i :: 0 <= i < |init| && f(init[i]) == x) || f(lines[|lines| - 1]) == x
  {
    if exists i :: 0 <= i < |lines| && f(lines[i]) == x {
      var i :| 0 <= i < |lines| && f(lines[i]) == x;
      if i < |init| {
        assert f(init[i]) == x;
      }
    }
    if exists i :: 0 <= i < |init| && f(init[i]) == x {
      var i :| 0 <= i < |init| && f(init[i]) == x;
      assert f(lines[i]) == x;
    }
  }

  /** Lines that are already trimmed and non-blank are kept as they are. */
  lemma {:induction false} NonEmptyTrimmedOfClean(lines: seq<string>)
    requires forall k :: 0 <= k < |lines| ==> lines[k] != "" && Trimmed(lines[k])
    ensures NonEmptyTrimmed(lines) == lines
  {
    if lines != [] {
      var init := lines[..|lines| - 1];
      var last := lines[|lines| - 1];
      assert forall k :: 0 <= k < |init| ==> init[k] == lines[k];
      NonEmptyTrimmedOfClean(init);
      TrimSpaceOfTrimmed(last);
      InitLast(lines);
    }
  }

  lemma InitLast(s: seq<string>)
    requires |s| > 0
    ensures s[..|s| - 1] + [s[|s| - 1]] == s
  {
  }

  /** removeEmptyLines never lengthens its input, and when it changes
      anything, every line it returns is trimmed and non-empty. */
  lemma CleanLinesShape(lines: seq<string>)
    ensures |CleanLines(lines)| <= |lines|
    ensures "" !in lines ==> CleanLines(lines) == lines
    ensures "" in lines ==> forall k :: 0 <= k < |CleanLines(lines)| ==>
              CleanLines(lines)[k] != "" && Trimmed(CleanLines(lines)[k])
  {
  }

  /** removeEmptyLines is idempotent. */
  lemma CleanLinesIdempotent(lines: seq<string>)
    ensures CleanLines(CleanLines(lines)) == CleanLines(lines)
  {
    if "" in lines {
      var r := NonEmptyTrimmed(lines);
      assert "" !in r;
    }
  }

  /** Why a git helper fails. */
  datatype GitError =
    | CommandFailed(cause: Exec.ExecError)
    | NotOneLine(lines: seq<string>)
    | NoOutput
    | InvalidGitUrl(line: string)

  /** The tail of GitGetBranchName: exactly one line must remain. */
  function BranchName(out: Result<seq<string>, Exec.ExecError>): Result<string, GitError> {
    match out
    case Err(e) => Err(CommandFailed(e))
    case Ok(lines) =>
      var l := CleanLines(lines);
      if |l| != 1 then Err(NotOneLine(l)) else Ok(l[0])
  }

  /** The tail of GitRemoteUrl: exactly one line, which must parse as a git
      URL; `normalise` stands for giturls.Parse followed by String. */
  function RemoteUrl(out: Result<seq<string>, Exec.ExecError>, normalise: string -> Option<string>)
    : Result<string, GitError>
  {
    match out
    case Err(e) => Err(CommandFailed(e))
    case Ok(lines) =>
      var l := CleanLines(lines);
      if |l| != 1 then Err(NotOneLine(l))
      else match normalise(l[0])
        case None => Err(InvalidGitUrl(l[0]))
        case Some(u) => Ok(u)
  }

  /** Both helpers succeed only when exactly one line survives the
      clean-up; GitGetBranchName then reports that line, and GitRemoteUrl
      reports it normalised. */
  lemma OneLineChecks(out: Result<seq<string>, Exec.ExecError>, normalise: string -> Option<string>)
    ensures BranchName(out).Ok? <==> out.Ok? && |CleanLines(out.value)| == 1
    ensures BranchName(out).Ok? ==> BranchName(out).value == CleanLines(out.value)[0]
    ensures RemoteUrl(out, normalise).Ok? <==>
              out.Ok? && |CleanLines(out.value)| == 1 && normalise(CleanLines(out.value)[0]).Some?
    ensures RemoteUrl(out, normalise).Ok? ==>
              RemoteUrl(out, normalise).value == normalise(CleanLines(out.value)[0]).value
  {
  }

  /** What git prints for one name, a line and its newline, comes back as
      that line. */
  lemma OneLineOutput(line: string)
    requires line != "" && '\n' !in line && Trimmed(line)
    ensures CleanLines(Exec.OutputLines(line + "\n")) == [line]
  {
    assert TrimSpace("") == "";
    Exec.OutputLinesOfJoin([line, ""]);
    assert Join([line, ""], "\n") == line + "\n";
    var lines := [line, ""];
    assert "" in lines;
    assert lines[..1] == [line];
    assert NonEmptyTrimmed(lines[..1]) == [line] by {
      TrimSpaceOfTrimmed(line);
      assert lines[..1][..0] == [];
    }
  }

  /** A branch name printed by `git rev-parse --abbrev-ref HEAD` is the
      name reported. */
  lemma BranchNameOfOutput(name: string)
    requires name != "" && '\n' !in name && Trimmed(name)
    ensures BranchName(Ok(Exec.OutputLines(name + "\n"))) == Ok(name)
  {
    OneLineOutput(name);
  }

  /** The tail of GitGetDefaultBranch: the first remaining line, with one
      leading `<remote>/` removed; no line at all is an error. */
  function DefaultBranch(remote: string, out: Result<seq<string>, Exec.ExecError>): Result<string, GitError> {
    match out
    case Err(e) => Err(CommandFailed(e))
    case Ok(lines) =>
      var l := CleanLines(lines);
      if |l| == 0 then Err(NoOutput) else Ok(TrimPrefix(l[0], remote + "/"))
  }

  /** The default branch is missing exactly when no line survives, as for
      empty output; otherwise it is the first line with the remote prefix
      taken off once. */
  lemma DefaultBranchCases(remote: string, lines: seq<string>)
    ensures DefaultBranch(remote, Ok(lines)) == Err(NoOutput) <==> CleanLines(lines) == []
    ensures DefaultBranch(remote, Ok(Exec.OutputLines(""))) == Err(NoOutput)
    ensures CleanLines(lines) != [] ==>
              var first := CleanLines(lines)[0];
              var b := DefaultBranch(remote, Ok(lines)).value;
              (StartsWith(first, remote + "/") ==> first == remote + "/" + b)
              && (!StartsWith(first, remote + "/") ==> b == first)
  {
    var empty := Exec.OutputLines("");
    assert Split("", '\n') == [""];
    assert TrimSpace("") == "";
    assert empty == [""];
    assert "" in empty;
    assert empty[..0] == [];
  }

  /** `origin/main` printed for the remote `origin` is the branch `main`. */
  lemma DefaultBranchOfOutput(remote: string, branch: string)
    requires var line := remote + "/" + branch;
             '\n' !in line && Trimmed(line)
    ensures DefaultBranch(remote, Ok(Exec.OutputLines(remote + "/" + branch + "\n"))) == Ok(branch)
  {
    var line := remote + "/" + branch;
    OneLineOutput(line);
    assert line[..|remote + "/"|] == remote + "/";
  }

  /** The depth GitCloneBranch clones at: the first depth argument, or 1. */
  function CloneDepth(depth: seq<int>): int {
    if |depth| > 0 then depth[0] else 1
  }

  /** The arguments of the clone command. */
  function CloneArgs(repoDir: string, repoUrl: string, branch: string, depth: seq<int>): seq<string> {
    ["clone", "-c", "advice.detachedHead=false",
     "--depth", IntToString(CloneDepth(depth)),
     "--branch", branch, repoUrl, repoDir]
  }

  /** The clone asks for depth 1 when no depth is given and for the first
      given depth otherwise; the branch, URL and directory follow. */
  lemma CloneArgsDepth(repoDir: string, repoUrl: string, branch: string, depth: seq<int>)
    requires |depth| > 0 ==> MinInt64 <= depth[0] <= MaxInt64
    ensures var a := CloneArgs(repoDir, repoUrl, branch, depth);
            && |a| == 9 && a[3] == "--depth"
            && (|depth| == 0 ==> Atoi(a[4]) == 1)
            && (|depth| > 0 ==> Atoi(a[4]) == depth[0])
            && a[6] == branch && a[7] == repoUrl && a[8] == repoDir
  {
    AtoiOfIntToString(CloneDepth(depth));
  }

  /** GitCommit's subject: a message of 50 runes or more is cut to its
      first 50 runes; a shorter one is kept. */
  method CommitSubject(message: string) returns (subject: string)
    ensures StartsWith(message, subject)
    ensures |subject| == if |message| < 50 then |message| else 50
  {
    var runes := message;
    if |runes| >= 50 {
      runes := runes[..50];
    }
    subject := runes;
  }
}
