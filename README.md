# rust-build-tool in Dafny

A Dafny model of the core of `rust-build-tool`, a command-line helper that
builds size-optimised Rust executables and removes unused dependencies.

- **Manifest patch-and-restore engine** (`CargoConfig`). `CargoConfigManager::new`
  reads `Cargo.toml` once and keeps that snapshot. `ensure_release_profile`
  recomputes, from the snapshot alone, a line list with a `[profile.release]`
  header (when the snapshot does not contain that text) and the missing ones
  of five fixed settings, inserted at the end of the section body, and writes
  the lines joined by `\n`. `restore` writes the snapshot back verbatim.
  The manager is a class over a `ManifestFile` object whose `text` field is
  the file contents; read and write failures are error outcomes.
- **Unused-dependency workflow** (`DependencyChecker`): the tool checks, the
  exit-code rule of `cargo udeps`, the line-driven parser of its report
  (capture state machine, first `"…"` match per line, then a sort), the
  section-priority lookup of a dependency, the aggregation of removal
  results, and the confirmation answer test.
- **Build driver** (`BuildSystem`): configuration in `new` (tool checks, the
  conditional UPX check, the project name, the executable path and its
  suffix) and the step order of `run` with its early exits.
- **Host target** (`PlatformHelper`): the `host: ` line of `rustc -vV`.

`Text` models the Rust string operations the core relies on (`lines`, `trim`,
`contains`, `starts_with`, `split(..).nth(1)`, `trim_matches`,
`trim_start_matches`, `join`, `eq_ignore_ascii_case`). `Common` holds
`Option`, `Result`, a process outcome and the error type.

Every subprocess is an input: a `ProcessOutput` is either a spawn failure or
an exit with an optional code, stdout and stderr. The parsed TOML manifest
is an input `Manifest` (section name to the optional key set of its table).
The TOML parser and `cargo remove` are function parameters. The
`cargo metadata` target directory, the platform `EXE_SUFFIX` and the outcome
of reading the executable's metadata are plain inputs.

Where the code behaves differently from what a reader might expect, the model follows the code:

- `run` has no guaranteed cleanup. Any failure after patching returns
  before `restore`, and the patched manifest stays on disk. So does a
  `restore` whose own write fails.
- The header test in `add_missing_section` is a substring test on the
  snapshot, not a test on lines. When the text occurs only inside a longer
  line, no line trims to the header. Then the section start falls back to
  the last line, and all five settings are appended at the very end.
- `execute_udeps` accepts every code `<= 1`, negative codes included.
- `check_command` fails only when `which`/`where` cannot be spawned. A
  missing tool is not detected.

## Model

| member | source | states |
|---|---|---|
| CargoConfig.CargoConfigManager.New | src/cargo_config.rs:18-24 | Succeeds iff the file is readable; the new manager's snapshot is the file text; a read failure is an I/O error |
| CargoConfig.CargoConfigManager.EnsureReleaseProfile | src/cargo_config.rs:26-36 | Writes `PatchedText(snapshot)` when the file is writable (the current file text is never consulted), otherwise leaves the file and reports a write error |
| CargoConfig.CargoConfigManager.AddMissingSection | src/cargo_config.rs:38-43 | Appends the header line exactly when the snapshot text does not contain `[profile.release]`; otherwise the lines are unchanged |
| CargoConfig.CargoConfigManager.UpdateProfileSettings | src/cargo_config.rs:45-57 | The insertion loop, which re-finds the boundary before every insertion, yields `WithSettings(lines)`: the missing settings as one block at the first boundary after the section start |
| CargoConfig.CargoConfigManager.FindSectionIndex | src/cargo_config.rs:59-66 | Returns the first index whose line trims to the header, or `len - 1` when there is none |
| CargoConfig.CargoConfigManager.ParseExistingSettings | src/cargo_config.rs:68-83 | Returns the keys (text before the first `=`, trimmed) of the lines after the start, up to the first blank or `[` line |
| CargoConfig.CargoConfigManager.FindInsertPosition | src/cargo_config.rs:85-96 | Returns the first blank or `[` line after the start, or the end of the list |
| CargoConfig.CargoConfigManager.WriteFile | src/cargo_config.rs:98-101 | Writes the lines joined by `\n` when writable; a write failure leaves the file unchanged |
| CargoConfig.CargoConfigManager.Restore | src/cargo_config.rs:103-106 | Writes exactly the snapshot taken in `new` when writable |
| CargoConfig.EnsureRepeatedly | src/cargo_config.rs:26-34 | Any number `n > 0` of `ensure_release_profile` calls leaves the same text, the patch of the snapshot; failure iff the file is not writable |
| CargoConfig.PatchScope | src/cargo_config.rs:18-34 | Open, patch any number of times, restore, with the permission free to change before the restore. Success iff the file was readable, writable when patched (or never patched) and writable when restored. A successful scope leaves the file's old text; a failed restore after a successful patch leaves the patched text; every other failure leaves the old text |
| CargoConfig.SectionStart | src/cargo_config.rs:59-66 | The section start is a valid index of a non-empty list, so `len - 1` never underflows |
| CargoConfig.SectionStartIsFirstHeader | src/cargo_config.rs:59-66 | No earlier line trims to the header; the start line does, or it is the last line and no line does |
| CargoConfig.BaseLines | src/cargo_config.rs:27-31 | The list handed to the settings pass is never empty, even for an empty manifest |
| CargoConfig.WithSettingsShape | src/cargo_config.rs:45-57 | The patch is `lines[..pos] + ins + lines[pos..]`. `pos` is the first boundary after the start, or the end. The inserted block holds body lines only. Hence the boundary after it is the old one and nothing is inserted after a later header |
| CargoConfig.WithSettingsKeepsLines | src/cargo_config.rs:45-57 | The settings pass only inserts: the old list is a subsequence of the new one, and at most five lines are added |
| CargoConfig.PatchKeepsOriginalLines | src/cargo_config.rs:27-31 | The snapshot's lines are a subsequence of the patched lines (none removed, altered or reordered); at most six lines are added |
| CargoConfig.WithSettingsBodyKeys | src/cargo_config.rs:45-57 | After the pass, the section body keys are the old keys followed by the missing setting keys, in `RELEASE_PROFILE_SETTINGS` order |
| CargoConfig.PatchAddsNoDuplicateKeys | src/cargo_config.rs:49-53 | A key already in the body keeps its count, a missing setting key appears exactly once, and every other key keeps its count |
| CargoConfig.MissingSettingsFrom | src/cargo_config.rs:49-52 | Every inserted line is `key = value` of a setting whose key was not in the body |
| CargoConfig.MissingSettings | src/cargo_config.rs:49-52 | At most one line per setting is inserted |
| CargoConfig.SettingKeysDistinct | src/cargo_config.rs:4-10 | The five setting keys are pairwise distinct |
| CargoConfig.AllSettingsMissing | src/cargo_config.rs:4-10 | With no key present, the inserted lines are the five settings formatted `key = value`, in order |
| CargoConfig.PatchAddsHeaderIff | src/cargo_config.rs:38-43 | The patched lines hold one more header line than the snapshot's lines exactly when the snapshot text lacks the header; otherwise the same number |
| CargoConfig.PatchCreatesSection | src/cargo_config.rs:38-57 | A snapshot without the header text gets the header as a new last line, followed by all five settings |
| CargoConfig.HeaderOnlyInsideLine | src/cargo_config.rs:59-66 | Header text present but no line trimming to it: all five settings are appended after the last line, and no header is added |
| CargoConfig.CompleteSectionUnchanged | src/cargo_config.rs:49-53 | A section body that already holds all five keys gets no new line |
| CargoConfig.NewlineTerminatedManifestRewritten | src/cargo_config.rs:27-31 | The join has no trailing newline. So a manifest ending in `\n` is rewritten with different text even when no line is inserted |
| CargoConfig.CrlfManifestRewritten | src/cargo_config.rs:27-31 | A manifest holding a `\r\n` terminator is rewritten with different text even when no line is inserted, because its CRLF terminators come back as LF |
| CargoConfig.TrimmedHeaderContains | src/cargo_config.rs:39 | A line that trims to the header contains the header text |
| CargoConfig.NoHeaderLine | src/cargo_config.rs:39 | A snapshot lacking the header text has no line that trims to the header |
| DependencyChecker.CheckCommand | src/dependency_checker.rs:46-59 | Fails exactly when `which`/`where` cannot be spawned; the exit status is ignored |
| DependencyChecker.CheckRustNightly | src/dependency_checker.rs:61-72 | Succeeds iff the process ran and its stdout contains `nightly`. A spawn failure is returned as the spawn error; a run without `nightly` is "Rust nightly toolchain is required" |
| DependencyChecker.CheckUpxLzma | src/dependency_checker.rs:74-83 | Succeeds iff the process ran and its stdout contains `--lzma`. A spawn failure is returned as the spawn error; a run without `--lzma` is "UPX with LZMA support is required" |
| DependencyChecker.ExecuteUdeps | src/dependency_checker.rs:152-171 | Accepted iff the process ran with code `<= 1` (a missing code counts as 1). A spawn failure is `CommandFailed` with the spawn error's text. A code above 1 is `CommandFailed` with the code and stderr. Success yields stdout and stderr joined by `\n` |
| DependencyChecker.QuotedRunIsLeftmostMatch | src/dependency_checker.rs:270-283 | A line yields a value iff it has a match of `"([^"]+)"`, and the value is the capture of the leftmost match |
| DependencyChecker.QuotedRunShape | src/dependency_checker.rs:270 | A captured value is non-empty and holds no quote |
| DependencyChecker.QuotedFromMatch | src/dependency_checker.rs:270-283 | The scan from position `i` finds the leftmost match starting at or after `i`, or reports that there is none |
| DependencyChecker.ScanCapturing | src/dependency_checker.rs:272-280 | The parser's `capturing` flag holds exactly when a header line came earlier with no blank line since |
| DependencyChecker.BlankEndsBlock | src/dependency_checker.rs:273-276 | A blank line turns capturing off |
| DependencyChecker.HeaderStartsBlock | src/dependency_checker.rs:277-280 | A header line turns capturing on |
| DependencyChecker.OtherLineKeepsBlock | src/dependency_checker.rs:281-285 | Any other line, with or without a quoted value, leaves the capture state as it was |
| DependencyChecker.ScanIsPicks | src/dependency_checker.rs:272-286 | The loop's list is the reference definition `Picks`: the quoted value of each captured line that has one, in line order |
| DependencyChecker.PicksComeFromCapturedLines | src/dependency_checker.rs:281-285 | Every collected value is the quoted value of a captured line (inside a block, neither blank nor a header) |
| DependencyChecker.PicksBound | src/dependency_checker.rs:281-285 | At most one value per captured line |
| DependencyChecker.ParseUdepsOutput | src/dependency_checker.rs:267-290 | The result is sorted and a permutation of the collected values (duplicates kept). Its length is at most the number of captured lines |
| DependencyChecker.LexLeIsTotalOrder | src/dependency_checker.rs:288 | The string order used by the sort is total, transitive and antisymmetric |
| DependencyChecker.SortFacts | src/dependency_checker.rs:288 | The sort returns a sorted permutation of its input |
| DependencyChecker.InsertFacts | src/dependency_checker.rs:288 | Inserting into a sorted list keeps it sorted and adds exactly the element |
| DependencyChecker.LocateDependency | src/dependency_checker.rs:127-149 | The first of `dependencies`, `dev-dependencies`, `build-dependencies` holding the dep wins, with flag none, `--dev`, `--build`. It is `DependencyNotFound(dep)` exactly when none holds it |
| DependencyChecker.RemoveDependency | src/dependency_checker.rs:98-124 | Success iff `cargo remove` exited with status 0, with the messages for removal, non-zero exit (trimmed stderr) and spawn failure |
| DependencyChecker.Outcome | src/dependency_checker.rs:205-210 | A dep's result succeeds iff it is located and its removal succeeds; a locate failure gives "Failed to locate dependency: Dependency not found: dep" |
| DependencyChecker.ProcessRemovals | src/dependency_checker.rs:182-214 | Exactly one failure result when the manifest cannot be loaded or parsed. Otherwise exactly one result per dep, in input order |
| DependencyChecker.ConfirmedIff | src/dependency_checker.rs:178 | The answer confirms iff, trimmed, it is `y` or `Y` |
| BuildSystem.NameLineFromFirst | src/build_system.rs:44-47 | The name line is the first line whose trimmed text starts with `name = `; there is none exactly when no line does |
| BuildSystem.ProjectName | src/build_system.rs:42-58 | The name is found iff some line's trimmed text starts with `name = ` |
| BuildSystem.ProjectNameIsFirstNameLine | src/build_system.rs:42-58 | The name comes from the first such line anywhere in the file. That line splits as `before = segment rest` at its first two `=`. The name is `segment` trimmed, with every leading and trailing `"` removed |
| BuildSystem.NameLineSplit | src/build_system.rs:49-52 | A name line's second `=`-segment exists and lies between its first and second `=` |
| BuildSystem.NameLineHasEquals | src/build_system.rs:46-52 | A line whose trimmed text starts with `name = ` contains `=` |
| BuildSystem.InvalidNameFormatUnreachable | src/build_system.rs:50-52 | The "Invalid name format" error is never produced |
| BuildSystem.ExecutablePath | src/build_system.rs:73-88 | The path is the target directory followed by `target`, `release` and the file name |
| BuildSystem.ExecutableFileName | src/build_system.rs:78-87 | The file name is the project name plus `.efi` when the target contains `uefi`, otherwise plus `EXE_SUFFIX` |
| BuildSystem.New | src/build_system.rs:17-40 | Succeeds iff all checks succeed: `cargo`, nightly, UPX only when requested, reading the manifest, the project name and the target directory. The value holds the executable path |
| BuildSystem.UpxCheckOnlyWhenRequested | src/build_system.rs:21-23 | Without `--upx`, UPX's output cannot change the outcome. With it, a failed UPX check after the first two checks is the error |
| BuildSystem.Status | src/build_system.rs:113 | `status()?` fails only when the command cannot be spawned; the exit code is discarded |
| BuildSystem.UpToFailureFacts | src/build_system.rs:92-107 | A chain of `?` attempts a prefix of its steps. All but the last attempted step succeeded. The last failed unless the whole chain succeeded |
| BuildSystem.UpToFailureAppend | src/build_system.rs:92-107 | The second part of a chain is reached only when the whole first part succeeds |
| BuildSystem.PlanShape | src/build_system.rs:92-107 | The plan opens and patches first and restores last and only there; clean and compress are in it exactly when configured |
| BuildSystem.ChainTrace | src/build_system.rs:92-107 | A run stops after opening when unreadable, and after patching when unwritable. Otherwise it runs the build steps up to their first failure. Restore follows only if all of them succeeded. The whole chain succeeds iff every step does, the restoring write included |
| BuildSystem.RestoreOnlyAfterSuccess | src/build_system.rs:92-108 | Restore is attempted iff opening, patching and every build step succeeded, and then the whole plan ran |
| BuildSystem.Run | src/build_system.rs:90-109 | The attempted steps are the plan up to its first failure, and success iff every step succeeds. The restoring write has its own permission. After an error past patching, a failed restore included, the file holds the patched text; otherwise it holds its old text. The permission is the restore's when restore was attempted, else unchanged |
| BuildSystem.RunBuildSteps | src/build_system.rs:95-105 | Clean if asked, build, compress if asked, show the result, each stopping the chain at its failure |
| PlatformHelper.DefaultTarget | src/platform_helper.rs:4-19 | A spawn failure or a non-success status is an error before stdout is read; no `host: ` line gives "Unable to determine default target platform" |
| PlatformHelper.HostFromFirstMatch | src/platform_helper.rs:12-16 | The answer comes from the first line at or after `i` that starts with `host: `; there is none exactly when no line does |
| PlatformHelper.DefaultTargetIsFirstHostLine | src/platform_helper.rs:12-18 | On success the target comes from the first `host: ` line; later ones are ignored. It is found iff such a line exists |
| PlatformHelper.DefaultTargetStripsPrefix | src/platform_helper.rs:14 | The line is `host: ` repeated `n >= 1` times followed by the target, which no longer starts with `host: ` |
| PlatformHelper.IndentedHostLineIgnored | src/platform_helper.rs:13 | Lines are not trimmed: when every line starts with whitespace, no target is found |
| Text.Lines | src/cargo_config.rs:29 | `lines()` yields no line exactly for the empty text |
| Text.JoinLinesRoundTrip | src/cargo_config.rs:99 | Joining the lines of a text with no `\r` and no final `\n` gives the text back |
| Text.CrlfDropped | src/cargo_config.rs:29 | Splitting a text holding a `\r\n` into lines and joining them by `\n` gives a strictly shorter text |
| Text.JoinLinesLength | src/cargo_config.rs:99 | Joining the lines never lengthens the text, and shortens a text that ends with `\n` |
| Text.SecondSegment | src/build_system.rs:50-52 | `split(c).nth(1)` exists iff `c` occurs, holds no `c`, and runs from just after the first `c` to the second `c` or the end |
| Text.TrimMatchesSlice | src/build_system.rs:54 | `trim_matches(c)` keeps a middle slice and removes only copies of `c` before and after it |
| Text.TrimMatches | src/build_system.rs:54 | The result neither starts nor ends with `c` |
| Text.TrimStartMatchesRepeat | src/platform_helper.rs:14 | `trim_start_matches(p)` removes a whole number of leading copies of `p` |
| Text.TrimFacts | src/cargo_config.rs:61 | `trim()` keeps a middle slice without whitespace at its ends and removes only whitespace around it |

## Left out

- Subprocesses (`which`/`where`, `rustup`, `upx`, `cargo udeps`, `cargo remove`, `cargo metadata`, `cargo clean`, `cargo build`, `rustc -vV`) are not run; their outcomes are inputs.
- `String::from_utf8` failures are not modelled: stdout is already text. `from_utf8_lossy` is the identity.
- `Cargo.toml` I/O is a `ManifestFile` object. A failed write leaves the text unchanged; partial writes are not modelled.
- `parse_project_name` reads the manifest itself. `BuildSystem.New` takes that read's outcome as an input separate from the file `run` opens.
- `load_cargo_toml` and `parse_cargo_toml`: the loader is a read of the `ManifestFile` object. The `toml` crate is a function parameter returning a `Manifest` or an error message.
- `get_target_directory`: the `serde_json` parse of `cargo metadata` is not modelled; its outcome is an input path.
- `PathBuf::join` is modelled as appending a component. An absolute component replacing the path is not modelled.
- The `regex` engine is replaced by a direct scan for the leftmost `"([^"]+)"` match.
- `show_result`: the floating-point size and its printing are not modelled. Only whether the executable's metadata could be read is an input.
- `compress`: the panic of `to_str().unwrap()` on a non-UTF-8 path is not modelled.
- `get_confirmation`: the prompt, the stdin read and the panic of its `unwrap` are not modelled. Only the answer test is kept.
- `print_results` and `check_unused_dependencies` only print and dispatch, and are not modelled.
- `src/main.rs` (argument parsing and dispatch) and `src/error.rs` (an unused error enum) are not part of this model.
- The effect of `cargo remove` on the manifest is not modelled; only its outcome is.
- CargoConfig.EnsureRepeatedly: the file's permission is the same for every patch write. A permission change is modelled only between the last patch and the restore (`restoreWritable`), and the read permission does not change during a run.
- BuildSystem.Run: the trace records which steps were attempted and leaves out the printed progress messages.
- CargoConfig.CargoConfigManager.FindSectionIndex: requires a non-empty list. With an empty list `len - 1` would underflow, but the only caller always passes at least one line (`BaseLines`).
