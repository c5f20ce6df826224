/** The optimized-build driver: how it is configured (tool checks, project
    name, executable path) and the order of the steps of a run. Tool runs
    and the `cargo metadata` query are inputs. */
module BuildSystem {

  import opened Common
  import opened Text
  import opened Files
  import opened CargoConfig
  import opened DependencyChecker

  /** A path as its components, joined in order by `PathBuf::join`. */
  type Path = seq<string>

  /** The configured build; the driver never changes it after `new`. */
  datatype BuildSystem = BuildSystem(target: string, useUpx: bool, clean: bool, executable: Path)

  // ---------------------------------------------------------------------
  // The project name
  // ---------------------------------------------------------------------

  const NamePrefix: string := "name = "

  /** `lines().find(..)`: the first line at or after `i` whose trimmed text
      starts with `name = `. */
  function NameLineFrom(lines: seq<string>, i: nat): (r: Option<string>)
    requires i <= |lines|
    ensures r.Some? ==> StartsWith(Trim(r.value), NamePrefix)
    decreases |lines| - i
  {
    if i == |lines| then None
    else if StartsWith(Trim(lines[i]), NamePrefix) then Some(lines[i])
    else NameLineFrom(lines, i + 1)
  }

  /** `parse_project_name` on the manifest text: the second `=`-segment of
      the name line, trimmed and with its quotes removed. */
  function ProjectName(content: string): (r: Result<string, Error>)
    ensures r.Ok? <==> NameLineFrom(Lines(content), 0).Some?
  {
    match NameLineFrom(Lines(content), 0)
    case None => Err(Failed("Failed to find project name in Cargo.toml"))
    case Some(line) =>
      NameLineHasEquals(line);
      match SecondSegment(line, '=')
      case None => Err(Failed("Invalid name format in Cargo.toml"))
      case Some(segment) => Ok(TrimMatches(Trim(segment), '"'))
  }

  /** A line whose trimmed text starts with `name = ` holds an `=`. */
  lemma NameLineHasEquals(line: string)
    requires StartsWith(Trim(line), NamePrefix)
    ensures '=' in line
  {
    TrimFacts(line);
    var a := |line| - |TrimStart(line)|;
    var t := Trim(line);
    assert t[5] == '=';
    assert line[a + 5] == t[5];
  }

  /** Hence the "Invalid name format" error is never produced. */
  lemma InvalidNameFormatUnreachable(content: string)
    ensures ProjectName(content) != Err(Failed("Invalid name format in Cargo.toml"))
  {
    var name := Failed("Failed to find project name in Cargo.toml");
    assert name != Failed("Invalid name format in Cargo.toml") by {
      assert name.message[1] != "Invalid name format in Cargo.toml"[1];
    }
  }

  lemma {:induction false} NameLineFromFirst(lines: seq<string>, i: nat) returns (k: nat)
    requires i <= |lines|
    ensures NameLineFrom(lines, i).Some? ==>
              && i <= k < |lines| && NameLineFrom(lines, i).value == lines[k]
              && forall j :: i <= j < k ==> !StartsWith(Trim(lines[j]), NamePrefix)
    ensures NameLineFrom(lines, i).None? <==> forall j :: i <= j < |lines| ==> !StartsWith(Trim(lines[j]), NamePrefix)
    decreases |lines| - i
  {
    k := i;
    if i < |lines| && !StartsWith(Trim(lines[i]), NamePrefix) {
      k := NameLineFromFirst(lines, i + 1);
    }
  }

  /** A name line splits at its first two `=` as `before = segment rest`,
      and `segment` is its second `=`-segment. */
  lemma NameLineSplit(line: string) returns (before: string, segment: string, rest: string)
    requires StartsWith(Trim(line), NamePrefix)
    ensures SecondSegment(line, '=') == Some(segment)
    ensures line == before + "=" + segment + rest
    ensures '=' !in before && '=' !in segment && (rest == [] || rest[0] == '=')
  {
    NameLineHasEquals(line);
    var i := IndexOf(line, '=');
    IndexOfFacts(line, '=');
    segment := SecondSegment(line, '=').value;
    before := line[..i];
    rest := line[i + 1 + |segment|..];
    assert line == line[..i + 1 + |segment|] + rest;
    assert '=' !in before by {
      assert forall m :: 0 <= m < |before| ==> before[m] == line[m];
    }
    if rest != [] {
      assert rest[0] == line[i + 1 + |segment|];
    }
  }

  /** The name comes from the first line of the whole manifest, in whatever
      table, whose trimmed text starts with `name = `; that line splits as
      `before = segment rest` with no `=` in `before` or `segment` and `rest`
      empty or starting at the second `=`; the name is `segment` trimmed and
      stripped of every leading and trailing `"`. */
  lemma ProjectNameIsFirstNameLine(content: string) returns (k: nat, before: string, segment: string, rest: string)
    ensures var lines, r := Lines(content), ProjectName(content);
            && (r.Ok? <==> exists j :: 0 <= j < |lines| && StartsWith(Trim(lines[j]), NamePrefix))
            && (r.Ok? ==>
                  && k < |lines| && StartsWith(Trim(lines[k]), NamePrefix)
                  && (forall j :: 0 <= j < k ==> !StartsWith(Trim(lines[j]), NamePrefix))
                  && lines[k] == before + "=" + segment + rest
                  && '=' !in before && '=' !in segment && (rest == [] || rest[0] == '=')
                  && r.value == TrimMatches(Trim(segment), '"'))
  {
    var lines := Lines(content);
    k := NameLineFromFirst(lines, 0);
    before, segment, rest := "", "", "";
    if NameLineFrom(lines, 0).Some? {
      before, segment, rest := NameLineSplit(lines[k]);
    }
  }

  // ---------------------------------------------------------------------
  // The executable path
  // ---------------------------------------------------------------------

  /** `.efi` for a UEFI target, else the platform's `EXE_SUFFIX`. */
  function PlatformSuffix(target: string, exeSuffix: string): string {
    if Contains(target, "uefi") then ".efi" else exeSuffix
  }

  /** `get_executable_path`: `target_dir / target / release / name+suffix`. */
  function ExecutablePath(targetDir: Path, name: string, target: string, exeSuffix: string): (r: Path)
    ensures |r| == |targetDir| + 3 && r[..|targetDir|] == targetDir
    ensures r[|targetDir|] == target && r[|targetDir| + 1] == "release"
  {
    targetDir + [target, "release", name + PlatformSuffix(target, exeSuffix)]
  }

  /** The executable's file name is the project name followed by `.efi`
      exactly for targets mentioning `uefi`, else by `EXE_SUFFIX`. */
  lemma ExecutableFileName(targetDir: Path, name: string, target: string, exeSuffix: string)
    ensures var file := ExecutablePath(targetDir, name, target, exeSuffix)[|targetDir| + 2];
            && StartsWith(file, name)
            && (Contains(target, "uefi") ==> EndsWith(file, ".efi") && file[..|name|] + ".efi" == file)
            && (!Contains(target, "uefi") ==> file == name + exeSuffix)
  {
    var file := ExecutablePath(targetDir, name, target, exeSuffix)[|targetDir| + 2];
    assert file == name + PlatformSuffix(target, exeSuffix);
    assert file[..|name|] == name;
    if Contains(target, "uefi") {
      assert file[|file| - 4..] == ".efi";
    }
  }

  // ---------------------------------------------------------------------
  // Configuring: `BuildSystem::new`
  // ---------------------------------------------------------------------

  /** What the three tool checks of `new` saw: `which cargo`, the nightly
      toolchain's version and UPX's help text. */
  datatype ToolOutputs = ToolOutputs(cargo: ProcessOutput, nightly: ProcessOutput, upx: ProcessOutput)

  /** `BuildSystem::new`, given the tool outputs, the outcome of reading the
      manifest, the `target_directory` reported by `cargo metadata` and the
      platform's `EXE_SUFFIX`. Each step runs only when the earlier ones
      succeeded; the UPX check runs only when compression was asked for. */
  function New(target: string, useUpx: bool, clean: bool, tools: ToolOutputs, manifest: Result<string, IoError>,
               targetDir: Result<Path, Error>, exeSuffix: string): (r: Result<BuildSystem, Error>)
    ensures r.Ok? <==> && CheckCommand(tools.cargo).Ok? && CheckRustNightly(tools.nightly).Ok?
                       && (useUpx ==> CheckUpxLzma(tools.upx).Ok?)
                       && manifest.Ok? && ProjectName(manifest.value).Ok? && targetDir.Ok?
    ensures r.Ok? ==> r.value == BuildSystem(target, useUpx, clean,
                                             ExecutablePath(targetDir.value, ProjectName(manifest.value).value, target, exeSuffix))
  {
    var cargo := CheckCommand(tools.cargo);
    if cargo.Err? then Err(cargo.error)
    else
      var nightly := CheckRustNightly(tools.nightly);
      if nightly.Err? then Err(nightly.error)
      else
        var upx := if useUpx then CheckUpxLzma(tools.upx) else Ok(());
        if upx.Err? then Err(upx.error)
        else if manifest.Err? then Err(IoFailure(manifest.error))
        else
          var name := ProjectName(manifest.value);
          if name.Err? then Err(name.error)
          else if targetDir.Err? then Err(targetDir.error)
          else Ok(BuildSystem(target, useUpx, clean, ExecutablePath(targetDir.value, name.value, target, exeSuffix)))
  }

  /** Without `--upx`, UPX's output cannot affect the outcome; with it, a
      failed UPX check (after the two other checks passed) is the error. */
  lemma UpxCheckOnlyWhenRequested(target: string, useUpx: bool, clean: bool, tools: ToolOutputs, other: ProcessOutput,
                                  manifest: Result<string, IoError>, targetDir: Result<Path, Error>, exeSuffix: string)
    ensures !useUpx ==> New(target, useUpx, clean, tools, manifest, targetDir, exeSuffix)
                        == New(target, useUpx, clean, tools.(upx := other), manifest, targetDir, exeSuffix)
    ensures useUpx && CheckCommand(tools.cargo).Ok? && CheckRustNightly(tools.nightly).Ok? && CheckUpxLzma(tools.upx).Err? ==>
              New(target, useUpx, clean, tools, manifest, targetDir, exeSuffix) == Err(CheckUpxLzma(tools.upx).error)
  {
  }

  // ---------------------------------------------------------------------
  // Running: `BuildSystem::run`
  // ---------------------------------------------------------------------

  /** The steps of a run. */
  datatype RunStep = OpenConfig | PatchConfig | Clean | Build | Compress | ShowResult | RestoreConfig

  /** What the external steps saw: `cargo clean`, the nightly `cargo build`,
      `upx --best --lzma`, whether the executable's metadata could be read,
      and whether the manifest was still writable when it was restored. */
  datatype StepOutputs = StepOutputs(clean: ProcessOutput, build: ProcessOutput, compress: ProcessOutput,
                                     executableFound: bool, restoreWritable: bool)

  /** `Command::status()?`: only a failure to spawn is an error; the exit
      status is discarded. */
  function Status(out: ProcessOutput): (r: Result<(), Error>)
    ensures r.Err? <==> out.SpawnFailed?
    ensures r.Err? ==> r.error == SpawnFailure(out.reason)
  {
    if out.SpawnFailed? then Err(SpawnFailure(out.reason)) else Ok(())
  }

  /** Every step a run attempts when nothing fails, in order: open and
      patch the manifest, clean if asked, build, compress if asked, show the
      result, restore the manifest. */
  function Plan(bs: BuildSystem): seq<RunStep> {
    [OpenConfig, PatchConfig] + BuildSteps(bs) + [RestoreConfig]
  }

  /** The steps between patching and restoring. */
  function BuildSteps(bs: BuildSystem): seq<RunStep> {
    CleanSteps(bs) + ([Build] + (CompressSteps(bs) + [ShowResult]))
  }

  function CleanSteps(bs: BuildSystem): seq<RunStep> {
    if bs.clean then [Clean] else []
  }

  function CompressSteps(bs: BuildSystem): seq<RunStep> {
    if bs.useUpx then [Compress] else []
  }

  /** Whether a step succeeds, given the manifest's permissions when the run
      starts and the external outcomes; the restoring write has its own
      outcome, since the file may have changed in between. */
  predicate StepSucceeds(step: RunStep, readable: bool, writable: bool, outs: StepOutputs) {
    match step
    case OpenConfig => readable
    case PatchConfig => writable
    case Clean => Status(outs.clean).Ok?
    case Build => Status(outs.build).Ok?
    case Compress => Status(outs.compress).Ok?
    case ShowResult => outs.executableFound
    case RestoreConfig => outs.restoreWritable
  }

  /** Every step of the chain succeeds. */
  predicate AllSucceed(steps: seq<RunStep>, readable: bool, writable: bool, outs: StepOutputs) {
    steps == [] || (StepSucceeds(steps[0], readable, writable, outs) && AllSucceed(steps[1..], readable, writable, outs))
  }

  /** Reference semantics of a chain of `?`: the steps are attempted in
      order up to and including the first one that fails. */
  function UpToFailure(steps: seq<RunStep>, readable: bool, writable: bool, outs: StepOutputs): seq<RunStep> {
    if steps == [] then []
    else if !StepSucceeds(steps[0], readable, writable, outs) then [steps[0]]
    else [steps[0]] + UpToFailure(steps[1..], readable, writable, outs)
  }

  /** The attempted steps are a prefix of the chain; all but the last
      succeeded; the last failed unless the whole chain ran and succeeded. */
  lemma {:induction false} UpToFailureFacts(steps: seq<RunStep>, readable: bool, writable: bool, outs: StepOutputs)
    returns (t: seq<RunStep>)
    ensures t == UpToFailure(steps, readable, writable, outs)
    ensures |t| <= |steps| && t == steps[..|t|]
    ensures steps != [] ==> t != []
    ensures forall k :: 0 <= k < |t| - 1 ==> StepSucceeds(t[k], readable, writable, outs)
    ensures AllSucceed(steps, readable, writable, outs) ==> t == steps
    ensures t != [] && !AllSucceed(steps, readable, writable, outs) ==> !StepSucceeds(t[|t| - 1], readable, writable, outs)
  {
    t := UpToFailure(steps, readable, writable, outs);
    if steps != [] {
      var u := UpToFailureFacts(steps[1..], readable, writable, outs);
      if StepSucceeds(steps[0], readable, writable, outs) {
        assert t == [steps[0]] + u;
        assert t[1..] == u;
        assert steps == [steps[0]] + steps[1..];
        forall k | 0 < k < |t| - 1
          ensures StepSucceeds(t[k], readable, writable, outs)
        {
          assert t[k] == u[k - 1];
        }
        if !AllSucceed(steps, readable, writable, outs) {
          assert !AllSucceed(steps[1..], readable, writable, outs);
          assert steps[1..] != [];
          assert t[|t| - 1] == u[|u| - 1];
        }
      } else {
        assert t == [steps[0]];
      }
    }
  }

  /** One more step in front of a chain. */
  lemma UpToFailureCons(x: RunStep, rest: seq<RunStep>, readable: bool, writable: bool, outs: StepOutputs)
    ensures UpToFailure([x] + rest, readable, writable, outs)
            == if StepSucceeds(x, readable, writable, outs) then [x] + UpToFailure(rest, readable, writable, outs) else [x]
    ensures AllSucceed([x] + rest, readable, writable, outs)
            <==> StepSucceeds(x, readable, writable, outs) && AllSucceed(rest, readable, writable, outs)
  {
    var s := [x] + rest;
    assert s[1..] == rest;
    assert forall k :: 1 <= k < |s| ==> s[k] == rest[k - 1];
  }

  /** A chain made of two parts: the second part is reached only when the
      whole first part succeeds. */
  lemma {:induction false} UpToFailureAppend(a: seq<RunStep>, b: seq<RunStep>, readable: bool, writable: bool, outs: StepOutputs)
    ensures UpToFailure(a + b, readable, writable, outs)
            == if AllSucceed(a, readable, writable, outs) then a + UpToFailure(b, readable, writable, outs)
               else UpToFailure(a, readable, writable, outs)
    ensures AllSucceed(a + b, readable, writable, outs)
            <==> AllSucceed(a, readable, writable, outs) && AllSucceed(b, readable, writable, outs)
  {
    if a != [] {
      UpToFailureAppend(a[1..], b, readable, writable, outs);
      assert (a + b)[1..] == a[1..] + b;
      assert (a + b)[0] == a[0];
      if AllSucceed(a, readable, writable, outs) {
        assert a == [a[0]] + a[1..];
      }
    } else {
      assert a + b == b;
    }
  }

  /** The plan opens and patches first and restores last, and nowhere else;
      cleaning and compressing are in it exactly when configured. */
  lemma PlanShape(bs: BuildSystem)
    ensures var p := Plan(bs);
            && p[0] == OpenConfig && p[1] == PatchConfig && p[|p| - 1] == RestoreConfig
            && (forall k :: 0 <= k < |p| - 1 ==> p[k] != RestoreConfig)
            && (Clean in p <==> bs.clean) && (Compress in p <==> bs.useUpx)
  {
  }

  /** Restore comes after the build steps and is reached only when all of
      them succeeded. */
  lemma ThenRestore(build: seq<RunStep>, outs: StepOutputs)
    ensures UpToFailure(build + [RestoreConfig], true, true, outs)
            == if AllSucceed(build, true, true, outs) then UpToFailure(build, true, true, outs) + [RestoreConfig]
               else UpToFailure(build, true, true, outs)
    ensures AllSucceed(build + [RestoreConfig], true, true, outs) <==> AllSucceed(build, true, true, outs) && outs.restoreWritable
  {
    UpToFailureAppend(build, [RestoreConfig], true, true, outs);
    UpToFailureCons(RestoreConfig, [], true, true, outs);
    assert [RestoreConfig] + [] == [RestoreConfig];
    var _ := UpToFailureFacts(build, true, true, outs);
  }

  /** How far a chain `open, patch, build..., restore` gets: opening, then
      patching, then the build steps, and restore only after all of those
      succeeded. */
  lemma ChainTrace(build: seq<RunStep>, readable: bool, writable: bool, outs: StepOutputs)
    ensures UpToFailure([OpenConfig, PatchConfig] + build + [RestoreConfig], readable, writable, outs)
            == if !readable then [OpenConfig]
               else if !writable then [OpenConfig, PatchConfig]
               else if !AllSucceed(build, true, true, outs)
               then [OpenConfig, PatchConfig] + UpToFailure(build, true, true, outs)
               else [OpenConfig, PatchConfig] + UpToFailure(build, true, true, outs) + [RestoreConfig]
    ensures AllSucceed([OpenConfig, PatchConfig] + build + [RestoreConfig], readable, writable, outs)
            <==> readable && writable && AllSucceed(build, true, true, outs) && outs.restoreWritable
  {
    var middle := build + [RestoreConfig];
    assert [OpenConfig, PatchConfig] + build + [RestoreConfig] == [OpenConfig] + ([PatchConfig] + middle);
    UpToFailureCons(OpenConfig, [PatchConfig] + middle, readable, writable, outs);
    if !readable {
      return;
    }
    UpToFailureCons(PatchConfig, middle, true, writable, outs);
    if !writable {
      assert [OpenConfig] + [PatchConfig] == [OpenConfig, PatchConfig];
      return;
    }
    ThenRestore(build, outs);
    var t := UpToFailure(build, true, true, outs);
    assert [OpenConfig] + ([PatchConfig] + t) == [OpenConfig, PatchConfig] + t;
    assert [OpenConfig] + ([PatchConfig] + (t + [RestoreConfig])) == [OpenConfig, PatchConfig] + t + [RestoreConfig];
  }

  /** `restore` is attempted exactly when opening, patching and every build
      step succeeded; it is the last step attempted. */
  lemma RestoreOnlyAfterSuccess(bs: BuildSystem, readable: bool, writable: bool, outs: StepOutputs)
    ensures var trace := UpToFailure(Plan(bs), readable, writable, outs);
            && (RestoreConfig in trace <==> readable && writable && AllSucceed(BuildSteps(bs), true, true, outs))
            && (RestoreConfig in trace ==> trace == Plan(bs))
  {
    var build := BuildSteps(bs);
    ChainTrace(build, readable, writable, outs);
    var t := UpToFailureFacts(build, true, true, outs);
    assert RestoreConfig !in build;
    assert RestoreConfig !in t by {
      assert forall k :: 0 <= k < |t| ==> t[k] == build[k];
    }
  }

  /** `run`: open and patch the manifest, run the build steps, restore the
      manifest; each `?` returns at the first failure, so restore is reached
      only when every earlier step succeeded, and a failure after patching,
      the restoring write's own included, leaves the patched manifest on
      disk. The file's permission may change before the restore, as
      `outs.restoreWritable` says. */
  method Run(bs: BuildSystem, file: ManifestFile, outs: StepOutputs) returns (r: Result<(), Error>, trace: seq<RunStep>)
    modifies file`text, file`writable
    ensures trace == UpToFailure(Plan(bs), old(file.readable), old(file.writable), outs)
    ensures r.Ok? <==> AllSucceed(Plan(bs), old(file.readable), old(file.writable), outs)
    ensures file.text == if old(file.readable) && old(file.writable) && r.Err? then PatchedText(old(file.text))
                         else old(file.text)
    ensures RestoreConfig in trace && !outs.restoreWritable ==> r.Err? && file.text == PatchedText(old(file.text))
    ensures file.writable == if RestoreConfig in trace then outs.restoreWritable else old(file.writable)
  {
    ghost var readable, writable := file.readable, file.writable;
    ChainTrace(BuildSteps(bs), readable, writable, outs);
    RestoreOnlyAfterSuccess(bs, readable, writable, outs);
    var opening := CargoConfigManager.New(file);
    if opening.Err? {
      return Err(opening.error), [OpenConfig];
    }
    var config := opening.value;
    r := config.EnsureReleaseProfile();
    if r.Err? {
      return r, [OpenConfig, PatchConfig];
    }
    var steps;
    r, steps := RunBuildSteps(bs, outs);
    if r.Err? {
      return r, [OpenConfig, PatchConfig] + steps;
    }
    assert readable && writable && AllSucceed(BuildSteps(bs), true, true, outs);
    file.SetWritable(outs.restoreWritable);
    r := config.Restore();
    trace := [OpenConfig, PatchConfig] + steps + [RestoreConfig];
  }

  /** The build steps of `run` in order: clean if asked, build, compress if
      asked, show the result, each returning at its failure. */
  method RunBuildSteps(bs: BuildSystem, outs: StepOutputs) returns (r: Result<(), Error>, trace: seq<RunStep>)
    ensures trace == UpToFailure(BuildSteps(bs), true, true, outs)
    ensures r.Ok? <==> AllSucceed(BuildSteps(bs), true, true, outs)
  {
    ghost var afterBuild := CompressSteps(bs) + [ShowResult];
    ghost var afterClean := [Build] + afterBuild;
    trace := [];
    if bs.clean {
      r := Status(outs.clean);
      UpToFailureCons(Clean, afterClean, true, true, outs);
      trace := [Clean];
      if r.Err? {
        return;
      }
    } else {
      assert BuildSteps(bs) == afterClean;
    }
    assert UpToFailure(BuildSteps(bs), true, true, outs) == trace + UpToFailure(afterClean, true, true, outs);
    assert AllSucceed(BuildSteps(bs), true, true, outs) == AllSucceed(afterClean, true, true, outs);
    r := Status(outs.build);
    UpToFailureCons(Build, afterBuild, true, true, outs);
    trace := trace + [Build];
    if r.Err? {
      return;
    }
    if bs.useUpx {
      r := Status(outs.compress);
      UpToFailureCons(Compress, [ShowResult], true, true, outs);
      trace := trace + [Compress];
      if r.Err? {
        return;
      }
    }
    UpToFailureCons(ShowResult, [], true, true, outs);
    trace := trace + [ShowResult];
    r := if outs.executableFound then Ok(()) else Err(IoFailure(ReadFailed));
  }
}
