/** The unused-dependency workflow around `cargo udeps`: the tool checks
    that guard the build, the parser of the udeps report, the lookup of a
    dependency's manifest section, the aggregation of removal results and
    the confirmation prompt's answer test. Every subprocess is an input
    `ProcessOutput`; the parsed manifest is a `Manifest` value. */
module DependencyChecker {

  import opened Common
  import opened Text
  import opened Files

  /** The checker's own error kinds, with the text their `Display` writes. */
  datatype DepCheckError =
    | ToolMissing(msg: string)
    | CargoTomlNotFound
    | TomlParseError(msg: string)
    | DependencyNotFound(dep: string)
    | CommandFailed(msg: string)
  {
    function Message(): string {
      match this
      case ToolMissing(msg) => "Tool missing: " + msg
      case CargoTomlNotFound => "Cargo.toml file not found"
      case TomlParseError(msg) => "TOML parse error: " + msg
      case DependencyNotFound(dep) => "Dependency not found: " + dep
      case CommandFailed(msg) => "Command execution failed: " + msg
    }
  }

  /** Where a dependency is declared and the `cargo remove` flag for it. */
  datatype DependencyLocation = DependencyLocation(section: string, flag: Option<string>)

  datatype RemovalResult = RemovalResult(success: bool, message: string)

  /** A parsed manifest: each top-level key maps to the key set of its
      table, or to `None` when its value is not a table. */
  type Manifest = map<string, Option<set<string>>>

  // ---------------------------------------------------------------------
  // Tool checks (the subprocess replaced by its output)
  // ---------------------------------------------------------------------

  /** `check_command`: only a failure to spawn `which`/`where` is an error;
      the exit status (whether the tool exists) is ignored. */
  function CheckCommand(out: ProcessOutput): (r: Result<(), Error>)
    ensures r.Err? <==> out.SpawnFailed?
  {
    match out
    case SpawnFailed(reason) => Err(SpawnFailure(reason))
    case Exited(_, _, _) => Ok(())
  }

  /** `check_rust_nightly`: the toolchain's version text must mention
      `nightly`; the exit status is not consulted. */
  function CheckRustNightly(out: ProcessOutput): (r: Result<(), Error>)
    ensures r.Ok? <==> out.Exited? && Contains(out.stdout, "nightly")
    ensures out.SpawnFailed? ==> r == Err(SpawnFailure(out.reason))
    ensures out.Exited? && r.Err? ==> r.error == Failed("Rust nightly toolchain is required")
  {
    match out
    case SpawnFailed(reason) => Err(SpawnFailure(reason))
    case Exited(_, stdout, _) =>
      if !Contains(stdout, "nightly") then Err(Failed("Rust nightly toolchain is required"))
      else Ok(())
  }

  /** `check_upx_lzma`: UPX's help text must mention `--lzma`. */
  function CheckUpxLzma(out: ProcessOutput): (r: Result<(), Error>)
    ensures r.Ok? <==> out.Exited? && Contains(out.stdout, "--lzma")
    ensures out.SpawnFailed? ==> r == Err(SpawnFailure(out.reason))
    ensures out.Exited? && r.Err? ==> r.error == Failed("UPX with LZMA support is required")
  {
    match out
    case SpawnFailed(reason) => Err(SpawnFailure(reason))
    case Exited(_, stdout, _) =>
      if !Contains(stdout, "--lzma") then Err(Failed("UPX with LZMA support is required"))
      else Ok(())
  }

  // ---------------------------------------------------------------------
  // Running `cargo udeps`
  // ---------------------------------------------------------------------

  /** `execute_udeps`: udeps exits with 1 when it finds unused dependencies,
      so only a code above 1 is a failure; a missing code counts as 1 and a
      negative code is accepted too. The report is stdout and stderr joined
      by a newline. */
  function ExecuteUdeps(out: ProcessOutput): (r: Result<string, DepCheckError>)
    ensures r.Ok? <==> out.Exited? && out.code.GetOr(1) <= 1
    ensures out.SpawnFailed? ==> r == Err(CommandFailed(out.reason))
    ensures out.Exited? && r.Err? ==>
              r.error == CommandFailed("Command failed (code " + IntToString(out.code.GetOr(1)) + "):\n" + out.stderr)
    ensures r.Ok? ==> r.value == out.stdout + "\n" + out.stderr
  {
    match out
    case SpawnFailed(reason) => Err(CommandFailed(reason))
    case Exited(code, stdout, stderr) =>
      if code.GetOr(1) > 1 then
        Err(CommandFailed("Command failed (code " + IntToString(code.GetOr(1)) + "):\n" + stderr))
      else
        Ok(stdout + "\n" + stderr)
  }

  // ---------------------------------------------------------------------
  // The quoted run: the first match of "([^"]+)"
  // ---------------------------------------------------------------------

  /** A match of `"([^"]+)"` with its quotes at `i` and `j`: at least one
      character between them and no quote among those characters. */
  predicate QuotedMatchAt(line: string, i: nat, j: nat) {
    i + 1 < j < |line| && line[i] == '"' && line[j] == '"'
    && forall k :: i < k < j ==> line[k] != '"'
  }

  /** The capture of the leftmost match starting at or after `i`. An opening
      quote directly followed by another quote starts no match; the search
      goes on from that second quote. */
  function QuotedFrom(line: string, i: nat): Option<string>
    requires i <= |line|
    decreases |line| - i
  {
    var q := IndexFrom(line, '"', i);
    if q == |line| then None
    else
      var e := IndexFrom(line, '"', q + 1);
      if e == |line| then None
      else if e == q + 1 then QuotedFrom(line, e)
      else Some(line[q + 1..e])
  }

  /** `dep_pattern.captures(line)` and its first group. */
  function QuotedRun(line: string): Option<string> {
    QuotedFrom(line, 0)
  }

  /** `QuotedFrom` returns the capture of the match with the least start at
      or after `i`, and `None` exactly when no match starts there. */
  lemma {:induction false} QuotedFromMatch(line: string, i: nat) returns (a: nat, b: nat)
    requires i <= |line|
    ensures QuotedFrom(line, i).Some? ==>
              && i <= a && QuotedMatchAt(line, a, b)
              && QuotedFrom(line, i).value == line[a + 1..b]
              && forall a': nat, b': nat :: i <= a' < a ==> !QuotedMatchAt(line, a', b')
    ensures QuotedFrom(line, i).None? ==>
              forall a': nat, b': nat :: i <= a' ==> !QuotedMatchAt(line, a', b')
    decreases |line| - i
  {
    var q := IndexFrom(line, '"', i);
    IndexFromFacts(line, '"', i);
    a, b := 0, 0;
    if q < |line| {
      var e := IndexFrom(line, '"', q + 1);
      IndexFromFacts(line, '"', q + 1);
      if e == |line| {
        assert forall k :: i <= k < |line| && line[k] == '"' ==> k == q;
      } else if e == q + 1 {
        a, b := QuotedFromMatch(line, e);
        assert forall k :: i <= k < e && line[k] == '"' ==> k == q;
        assert line[q + 1] == '"';
      } else {
        a, b := q, e;
        assert QuotedMatchAt(line, a, b);
      }
    }
  }

  /** A line's quoted run exists exactly when the line has a match, and it is
      the text between the quotes of the leftmost match. */
  lemma QuotedRunIsLeftmostMatch(line: string)
    ensures QuotedRun(line).None? <==> forall a: nat, b: nat :: !QuotedMatchAt(line, a, b)
    ensures QuotedRun(line).Some? ==>
              exists a: nat, b: nat :: && QuotedMatchAt(line, a, b) && QuotedRun(line).value == line[a + 1..b]
                                       && forall a': nat, b': nat :: a' < a ==> !QuotedMatchAt(line, a', b')
  {
    var a, b := QuotedFromMatch(line, 0);
  }

  /** A quoted run is never empty and holds no quote. */
  lemma QuotedRunShape(line: string)
    ensures QuotedRun(line).Some? ==> QuotedRun(line).value != [] && '"' !in QuotedRun(line).value
  {
    var a, b := QuotedFromMatch(line, 0);
    if QuotedRun(line).Some? {
      var v := QuotedRun(line).value;
      assert v == line[a + 1..b];
      assert forall k :: 0 <= k < |v| ==> v[k] == line[a + 1 + k];
    }
  }

  // ---------------------------------------------------------------------
  // Parsing the udeps report
  // ---------------------------------------------------------------------

  const UnusedHeader: string := "unused dependencies:"

  predicate IsBlank(line: string) {
    Trim(line) == []
  }

  /** A line that, trimmed, begins an `unused dependencies:` block. */
  predicate IsHeader(line: string) {
    StartsWith(Trim(line), UnusedHeader)
  }

  /** The parser's state after some lines: what it collected and whether it
      is inside a block. */
  datatype ScanState = ScanState(deps: seq<string>, capturing: bool)

  /** One turn of the parser's loop on a line as `lines()` yields it. */
  function Step(st: ScanState, raw: string): ScanState {
    if IsBlank(raw) then st.(capturing := false)
    else if IsHeader(raw) then st.(capturing := true)
    else if st.capturing && QuotedRun(Trim(raw)).Some? then st.(deps := st.deps + [QuotedRun(Trim(raw)).value])
    else st
  }

  /** The state after the first `n` lines. */
  function Scan(lines: seq<string>, n: nat): ScanState
    requires n <= |lines|
  {
    if n == 0 then ScanState([], false) else Step(Scan(lines, n - 1), lines[n - 1])
  }

  /** Before line `k` the parser is inside a block: some header line came
      earlier and no blank line has followed it. */
  predicate CapturingBefore(lines: seq<string>, k: nat)
    requires k <= |lines|
  {
    exists h :: 0 <= h < k && IsHeader(lines[h]) && forall m :: h < m < k ==> !IsBlank(lines[m])
  }

  /** Line `k` is captured: read inside a block, and neither blank nor a
      header itself. */
  predicate Captured(lines: seq<string>, k: nat)
    requires k < |lines|
  {
    CapturingBefore(lines, k) && !IsBlank(lines[k]) && !IsHeader(lines[k])
  }

  /** Reference definition of what the first `n` lines yield: the quoted run
      of each captured line that has one, in line order. */
  function Picks(lines: seq<string>, n: nat): seq<string>
    requires n <= |lines|
  {
    if n == 0 then []
    else
      var run := QuotedRun(Trim(lines[n - 1]));
      Picks(lines, n - 1) + (if Captured(lines, n - 1) && run.Some? then [run.value] else [])
  }

  /** The number of captured lines among the first `n`. */
  function CapturedCount(lines: seq<string>, n: nat): nat
    requires n <= |lines|
  {
    if n == 0 then 0 else CapturedCount(lines, n - 1) + (if Captured(lines, n - 1) then 1 else 0)
  }

  /** After reading a blank line the parser is outside any block. */
  lemma BlankEndsBlock(lines: seq<string>, n: nat)
    requires 0 < n <= |lines| && IsBlank(lines[n - 1])
    ensures !CapturingBefore(lines, n)
  {
    assert !IsHeader(lines[n - 1]);
  }

  /** Reading a line that is neither blank nor a header leaves the block
      state as it was. */
  lemma OtherLineKeepsBlock(lines: seq<string>, n: nat)
    requires 0 < n <= |lines| && !IsBlank(lines[n - 1]) && !IsHeader(lines[n - 1])
    ensures CapturingBefore(lines, n) == CapturingBefore(lines, n - 1)
  {
    if CapturingBefore(lines, n) {
      var h :| 0 <= h < n && IsHeader(lines[h]) && forall m :: h < m < n ==> !IsBlank(lines[m]);
      assert h < n - 1;
    }
    if CapturingBefore(lines, n - 1) {
      var h :| 0 <= h < n - 1 && IsHeader(lines[h]) && forall m :: h < m < n - 1 ==> !IsBlank(lines[m]);
      assert forall m :: h < m < n ==> !IsBlank(lines[m]);
    }
  }

  /** The parser's flag is "inside a block". */
  lemma {:induction false} ScanCapturing(lines: seq<string>, n: nat)
    requires n <= |lines|
    ensures Scan(lines, n).capturing == CapturingBefore(lines, n)
  {
    if n > 0 {
      ScanCapturing(lines, n - 1);
      var line := lines[n - 1];
      if IsBlank(line) {
        BlankEndsBlock(lines, n);
      } else if IsHeader(line) {
        HeaderStartsBlock(lines, n);
      } else {
        OtherLineKeepsBlock(lines, n);
      }
    }
  }

  /** The parser's loop computes the reference definition: its list is
      `Picks`. */
  lemma {:induction false} ScanIsPicks(lines: seq<string>, n: nat)
    requires n <= |lines|
    ensures Scan(lines, n).deps == Picks(lines, n)
  {
    if n > 0 {
      ScanIsPicks(lines, n - 1);
      ScanCapturing(lines, n - 1);
      var line := lines[n - 1];
      var run := QuotedRun(Trim(line));
      assert Captured(lines, n - 1) <==> Scan(lines, n - 1).capturing && !IsBlank(line) && !IsHeader(line);
    }
  }

  /** After reading a header line the parser is inside a block. */
  lemma HeaderStartsBlock(lines: seq<string>, n: nat)
    requires 0 < n <= |lines| && IsHeader(lines[n - 1])
    ensures CapturingBefore(lines, n)
  {
    assert IsHeader(lines[n - 1]);
  }

  /** Every collected value is the quoted run of a captured line. */
  lemma {:induction false} PicksComeFromCapturedLines(lines: seq<string>, n: nat)
    requires n <= |lines|
    ensures forall d :: d in Picks(lines, n) ==>
              exists k :: 0 <= k < n && Captured(lines, k) && QuotedRun(Trim(lines[k])) == Some(d)
  {
    if n > 0 {
      PicksComeFromCapturedLines(lines, n - 1);
    }
  }

  /** At most one value per captured line. */
  lemma {:induction false} PicksBound(lines: seq<string>, n: nat)
    requires n <= |lines|
    ensures |Picks(lines, n)| <= CapturedCount(lines, n)
  {
    if n > 0 {
      PicksBound(lines, n - 1);
    }
  }

  /** `parse_udeps_output`: scan the trimmed lines, then sort. The result is
      the sorted reference list: sorted, a permutation of the collected
      values (duplicates kept), at most one per captured line. */
  method ParseUdepsOutput(output: string) returns (deps: seq<string>)
    ensures var lines := Lines(output);
            && Sorted(deps)
            && multiset(deps) == multiset(Picks(lines, |lines|))
            && |deps| <= CapturedCount(lines, |lines|)
  {
    var lines := Lines(output);
    deps := [];
    var capturing := false;
    var i := 0;
    while i < |lines|
      invariant 0 <= i <= |lines|
      invariant ScanState(deps, capturing) == Scan(lines, i)
    {
      var line := Trim(lines[i]);
      if line == [] {
        capturing := false;
      } else if StartsWith(line, UnusedHeader) {
        capturing := true;
      } else if capturing {
        match QuotedRun(line) {
          case Some(v) => deps := deps + [v];
          case None =>
        }
      }
      i := i + 1;
    }
    ScanIsPicks(lines, |lines|);
    PicksBound(lines, |lines|);
    var collected := deps;
    deps := Sort(collected);
    SortFacts(collected);
    assert |deps| == |multiset(deps)| == |multiset(collected)| == |collected|;
  }

  // ---------------------------------------------------------------------
  // Sorting strings: `Vec<String>::sort`
  // ---------------------------------------------------------------------

  /** `Ord for str` from position `i` on: the first differing character
      decides, and a prefix comes first. Characters compare by code point,
      which is the order of their UTF-8 bytes. */
  predicate LexLeFrom(a: string, b: string, i: nat)
    requires i <= |a| && i <= |b|
    decreases |a| - i
  {
    if i == |a| then true
    else if i == |b| then false
    else if a[i] != b[i] then a[i] < b[i]
    else LexLeFrom(a, b, i + 1)
  }

  predicate LexLe(a: string, b: string) {
    LexLeFrom(a, b, 0)
  }

  lemma {:induction false} LexLeFromTotal(a: string, b: string, i: nat)
    requires i <= |a| && i <= |b|
    ensures LexLeFrom(a, b, i) || LexLeFrom(b, a, i)
    decreases |a| - i
  {
    if i < |a| && i < |b| && a[i] == b[i] {
      LexLeFromTotal(a, b, i + 1);
    }
  }

  lemma {:induction false} LexLeFromTransitive(a: string, b: string, c: string, i: nat)
    requires i <= |a| && i <= |b| && i <= |c|
    requires LexLeFrom(a, b, i) && LexLeFrom(b, c, i)
    ensures LexLeFrom(a, c, i)
    decreases |a| - i
  {
    if i < |a| && a[i] == b[i] && b[i] == c[i] {
      LexLeFromTransitive(a, b, c, i + 1);
    }
  }

  lemma {:induction false} LexLeFromAntisymmetric(a: string, b: string, i: nat)
    requires i <= |a| && i <= |b| && a[..i] == b[..i]
    requires LexLeFrom(a, b, i) && LexLeFrom(b, a, i)
    ensures a == b
    decreases |a| - i
  {
    if i < |a| {
      assert a[..i + 1] == a[..i] + [a[i]] && b[..i + 1] == b[..i] + [b[i]];
      LexLeFromAntisymmetric(a, b, i + 1);
    } else {
      assert a == a[..i] && b == b[..i];
    }
  }

  /** The string order is a total order, as `Ord` requires. */
  lemma LexLeIsTotalOrder(a: string, b: string, c: string)
    ensures LexLe(a, b) || LexLe(b, a)
    ensures LexLe(a, b) && LexLe(b, c) ==> LexLe(a, c)
    ensures LexLe(a, b) && LexLe(b, a) ==> a == b
  {
    LexLeFromTotal(a, b, 0);
    if LexLe(a, b) && LexLe(b, c) {
      LexLeFromTransitive(a, b, c, 0);
    }
    if LexLe(a, b) && LexLe(b, a) {
      LexLeFromAntisymmetric(a, b, 0);
    }
  }

  predicate Sorted(s: seq<string>) {
    forall i, j :: 0 <= i < j < |s| ==> LexLe(s[i], s[j])
  }

  /** `x` placed before the first element it does not exceed. */
  function Insert(x: string, s: seq<string>): seq<string> {
    if s == [] then [x]
    else if LexLe(x, s[0]) then [x] + s
    else [s[0]] + Insert(x, s[1..])
  }

  /** The sort that `deps.sort()` performs, as an insertion sort. */
  function Sort(s: seq<string>): seq<string> {
    if s == [] then [] else Insert(s[0], Sort(s[1..]))
  }

  lemma {:induction false} InsertFacts(x: string, s: seq<string>)
    requires Sorted(s)
    ensures multiset(Insert(x, s)) == multiset(s) + multiset{x}
    ensures Sorted(Insert(x, s))
  {
    if s != [] && LexLe(x, s[0]) {
      forall j | 0 <= j < |s|
        ensures LexLe(x, s[j])
      {
        if j > 0 {
          LexLeFromTransitive(x, s[0], s[j], 0);
        }
      }
    } else if s != [] {
      var t := s[1..];
      assert s == [s[0]] + t;
      InsertFacts(x, t);
      var r := Insert(x, t);
      LexLeFromTotal(x, s[0], 0);
      forall j | 0 <= j < |r|
        ensures LexLe(s[0], r[j])
      {
        assert r[j] in multiset(r);
        if r[j] != x {
          assert r[j] in t;
        }
      }
    }
  }

  /** The result of `Sort` is sorted and a permutation of its input. */
  lemma {:induction false} SortFacts(s: seq<string>)
    ensures multiset(Sort(s)) == multiset(s)
    ensures Sorted(Sort(s))
  {
    if s != [] {
      SortFacts(s[1..]);
      InsertFacts(s[0], Sort(s[1..]));
      assert s == [s[0]] + s[1..];
    }
  }

  // ---------------------------------------------------------------------
  // Locating and removing dependencies
  // ---------------------------------------------------------------------

  /** The sections searched, in priority order, with their flags. */
  const Sections: seq<(string, Option<string>)> := [
    ("dependencies", None),
    ("dev-dependencies", Some("--dev")),
    ("build-dependencies", Some("--build"))
  ]

  /** `cargo_data.get(section)` is a table and `table.get(dep)` finds `dep`. */
  predicate Holds(manifest: Manifest, section: string, dep: string) {
    section in manifest && manifest[section].Some? && dep in manifest[section].value
  }

  /** The search loop from section `i` on, returning at the first hit. */
  function LocateFrom(dep: string, manifest: Manifest, i: nat): Result<DependencyLocation, DepCheckError>
    requires i <= |Sections|
    decreases |Sections| - i
  {
    if i == |Sections| then Err(DependencyNotFound(dep))
    else if Holds(manifest, Sections[i].0, dep) then Ok(DependencyLocation(Sections[i].0, Sections[i].1))
    else LocateFrom(dep, manifest, i + 1)
  }

  /** `locate_dependency`: the first of `dependencies`, `dev-dependencies`,
      `build-dependencies` that holds `dep`, with flag none, `--dev`,
      `--build`; `DependencyNotFound(dep)` when none does. */
  function LocateDependency(dep: string, manifest: Manifest): (r: Result<DependencyLocation, DepCheckError>)
    ensures Holds(manifest, "dependencies", dep) ==>
              r == Ok(DependencyLocation("dependencies", None))
    ensures !Holds(manifest, "dependencies", dep) && Holds(manifest, "dev-dependencies", dep) ==>
              r == Ok(DependencyLocation("dev-dependencies", Some("--dev")))
    ensures !Holds(manifest, "dependencies", dep) && !Holds(manifest, "dev-dependencies", dep)
            && Holds(manifest, "build-dependencies", dep) ==>
              r == Ok(DependencyLocation("build-dependencies", Some("--build")))
    ensures r.Err? <==> !Holds(manifest, "dependencies", dep) && !Holds(manifest, "dev-dependencies", dep)
                        && !Holds(manifest, "build-dependencies", dep)
    ensures r.Err? ==> r.error == DependencyNotFound(dep)
  {
    LocateFrom(dep, manifest, 0)
  }

  /** `remove_dependency` given the outcome of `cargo remove dep [flag]`. */
  function RemoveDependency(dep: string, location: DependencyLocation, out: ProcessOutput): (r: RemovalResult)
    ensures r.success <==> out.Succeeded()
    ensures r.success ==> r.message == "Removed " + dep + " (" + location.section + ")"
    ensures out.Exited? && !r.success ==> r.message == "Failed to remove " + dep + ": " + Trim(out.stderr)
    ensures out.SpawnFailed? ==> r.message == "Failed to remove " + dep + ": " + out.reason
  {
    match out
    case Exited(_, _, stderr) =>
      if out.Succeeded() then RemovalResult(true, "Removed " + dep + " (" + location.section + ")")
      else RemovalResult(false, "Failed to remove " + dep + ": " + Trim(stderr))
    case SpawnFailed(reason) => RemovalResult(false, "Failed to remove " + dep + ": " + reason)
  }

  /** The result pushed for one dependency of the list. */
  function Outcome(dep: string, manifest: Manifest, remover: (string, Option<string>) -> ProcessOutput): (r: RemovalResult)
    ensures r.success <==> (LocateDependency(dep, manifest).Ok?
                            && remover(dep, LocateDependency(dep, manifest).value.flag).Succeeded())
    ensures LocateDependency(dep, manifest).Err? ==>
              r.message == "Failed to locate dependency: " + DependencyNotFound(dep).Message()
  {
    match LocateDependency(dep, manifest)
    case Ok(location) => RemoveDependency(dep, location, remover(dep, location.flag))
    case Err(e) => RemovalResult(false, "Failed to locate dependency: " + e.Message())
  }

  /** `process_removals`: one failure when the manifest cannot be read or
      parsed, otherwise one result per dependency in input order. */
  method ProcessRemovals(deps: seq<string>, file: ManifestFile, parse: string -> Result<Manifest, string>,
                         remover: (string, Option<string>) -> ProcessOutput)
    returns (results: seq<RemovalResult>)
    ensures !file.readable ==>
              results == [RemovalResult(false, "Failed to load Cargo.toml: " + CargoTomlNotFound.Message())]
    ensures file.readable && parse(file.text).Err? ==>
              results == [RemovalResult(false, "Failed to parse Cargo.toml: " + TomlParseError(parse(file.text).error).Message())]
    ensures file.readable && parse(file.text).Ok? ==>
              && |results| == |deps|
              && forall i :: 0 <= i < |deps| ==> results[i] == Outcome(deps[i], parse(file.text).value, remover)
  {
    var loaded := file.Read();
    if loaded.Err? {
      return [RemovalResult(false, "Failed to load Cargo.toml: " + CargoTomlNotFound.Message())];
    }
    var parsed := parse(loaded.value);
    if parsed.Err? {
      return [RemovalResult(false, "Failed to parse Cargo.toml: " + TomlParseError(parsed.error).Message())];
    }
    var manifest := parsed.value;
    results := [];
    var i := 0;
    while i < |deps|
      invariant 0 <= i <= |deps|
      invariant |results| == i
      invariant forall k :: 0 <= k < i ==> results[k] == Outcome(deps[k], manifest, remover)
    {
      var dep := deps[i];
      var result;
      match LocateDependency(dep, manifest) {
        case Ok(location) => result := RemoveDependency(dep, location, remover(dep, location.flag));
        case Err(e) => result := RemovalResult(false, "Failed to locate dependency: " + e.Message());
      }
      assert result == Outcome(dep, manifest, remover);
      results := results + [result];
      i := i + 1;
    }
  }

  // ---------------------------------------------------------------------
  // Confirmation
  // ---------------------------------------------------------------------

  /** `get_confirmation`'s answer test on the line read. */
  predicate Confirmed(input: string) {
    EqIgnoreAsciiCase(Trim(input), "y")
  }

  /** The answer confirms exactly when, trimmed, it is `y` or `Y`. */
  lemma ConfirmedIff(input: string)
    ensures Confirmed(input) <==> Trim(input) == "y" || Trim(input) == "Y"
  {
    var t := Trim(input);
    if Confirmed(input) {
      assert |t| == 1 && AsciiLower(t[0]) == 'y';
      assert t == [t[0]];
    }
  }
}
