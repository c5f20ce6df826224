/** The host platform, read from the `host: ` line of `rustc -vV`. */
module PlatformHelper {

  import opened Common
  import opened Text

  const HostPrefix: string := "host: "

  /** The first of `lines[i..]` that starts with `host: `, with every leading
      repetition of that prefix stripped; `None` when no line starts so. */
  function HostFrom(lines: seq<string>, i: nat): Option<string>
    requires i <= |lines|
    decreases |lines| - i
  {
    if i == |lines| then None
    else if StartsWith(lines[i], HostPrefix) then Some(TrimStartMatches(lines[i], HostPrefix))
    else HostFrom(lines, i + 1)
  }

  /** `get_default_target` given the outcome of `rustc -vV`: a spawn failure
      or an unsuccessful exit is an error before stdout is examined; then the
      first `host: ` line decides. */
  function DefaultTarget(out: ProcessOutput): (r: Result<string, Error>)
    ensures out.SpawnFailed? ==> r == Err(SpawnFailure(out.reason))
    ensures out.Exited? && !out.Succeeded() ==> r == Err(Failed("Failed to get rustc version"))
    ensures out.Succeeded() && r.Err? ==> r.error == Failed("Unable to determine default target platform")
  {
    match out
    case SpawnFailed(reason) => Err(SpawnFailure(reason))
    case Exited(_, stdout, _) =>
      if !out.Succeeded() then Err(Failed("Failed to get rustc version"))
      else
        match HostFrom(Lines(stdout), 0)
        case Some(host) => Ok(host)
        case None => Err(Failed("Unable to determine default target platform"))
  }

  /** `HostFrom` answers from the first line at or after `i` that starts with
      `host: `, and finds nothing exactly when there is no such line. */
  lemma {:induction false} HostFromFirstMatch(lines: seq<string>, i: nat) returns (k: nat)
    requires i <= |lines|
    ensures HostFrom(lines, i).Some? ==>
              && i <= k < |lines| && StartsWith(lines[k], HostPrefix)
              && HostFrom(lines, i).value == TrimStartMatches(lines[k], HostPrefix)
              && forall j :: i <= j < k ==> !StartsWith(lines[j], HostPrefix)
    ensures HostFrom(lines, i).None? <==> forall j :: i <= j < |lines| ==> !StartsWith(lines[j], HostPrefix)
    decreases |lines| - i
  {
    k := i;
    if i < |lines| && !StartsWith(lines[i], HostPrefix) {
      k := HostFromFirstMatch(lines, i + 1);
    }
  }

  /** On a successful run the target is taken from the first `host: ` line
      of stdout; later such lines are ignored. */
  lemma DefaultTargetIsFirstHostLine(out: ProcessOutput) returns (k: nat)
    requires out.Succeeded()
    ensures var lines, r := Lines(out.stdout), DefaultTarget(out);
            && (r.Ok? <==> exists j :: 0 <= j < |lines| && StartsWith(lines[j], HostPrefix))
            && (r.Ok? ==> && k < |lines| && StartsWith(lines[k], HostPrefix)
                          && r.value == TrimStartMatches(lines[k], HostPrefix)
                          && forall j :: 0 <= j < k ==> !StartsWith(lines[j], HostPrefix))
  {
    k := HostFromFirstMatch(Lines(out.stdout), 0);
  }

  /** The target is the host line with all its leading `host: ` copies (at
      least one) removed, so it no longer starts with `host: `. */
  lemma DefaultTargetStripsPrefix(out: ProcessOutput) returns (k: nat, n: nat)
    requires DefaultTarget(out).Ok?
    ensures var lines, host := Lines(out.stdout), DefaultTarget(out).value;
            && k < |lines| && n >= 1
            && lines[k] == Repeat(HostPrefix, n) + host
            && !StartsWith(host, HostPrefix)
  {
    k := HostFromFirstMatch(Lines(out.stdout), 0);
    var line := Lines(out.stdout)[k];
    n := TrimStartMatchesRepeat(line, HostPrefix);
    assert Repeat(HostPrefix, 0) == "";
  }

  /** Lines are not trimmed before the test: when every line of stdout
      begins with whitespace (an indented `  host: x`, say), no target is
      found. */
  lemma IndentedHostLineIgnored(out: ProcessOutput)
    requires out.Succeeded()
    requires forall j :: 0 <= j < |Lines(out.stdout)| ==>
               Lines(out.stdout)[j] != [] && IsWhitespace(Lines(out.stdout)[j][0])
    ensures DefaultTarget(out) == Err(Failed("Unable to determine default target platform"))
  {
    var lines := Lines(out.stdout);
    forall j | 0 <= j < |lines|
      ensures !StartsWith(lines[j], HostPrefix)
    {
      assert lines[j][0] != HostPrefix[0];
    }
    var _ := HostFromFirstMatch(lines, 0);
  }
}
