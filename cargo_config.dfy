/** The manifest patch-and-restore engine: `CargoConfigManager` takes a
    snapshot of `Cargo.toml` when it is opened, rewrites the file from that
    snapshot with a `[profile.release]` section holding five size-oriented
    settings, and writes the snapshot back on `restore`. */
module CargoConfig {

  import opened Common
  import opened Text
  import opened Files

  const ReleaseHeader: string := "[profile.release]"

  /** `RELEASE_PROFILE_SETTINGS`, in insertion order. */
  const ReleaseProfileSettings: seq<(string, string)> := [
    ("opt-level", "'z'"),
    ("lto", "true"),
    ("codegen-units", "1"),
    ("panic", "'abort'"),
    ("strip", "true")
  ]

  /** The keys of `RELEASE_PROFILE_SETTINGS`. */
  const SettingKeys: set<string> := set j | 0 <= j < |ReleaseProfileSettings| :: ReleaseProfileSettings[j].0

  /** `format!("{} = {}", key, value)`. */
  function SettingLine(key: string, value: string): string {
    key + " = " + value
  }

  /** A line that ends a section body: blank once trimmed, or a header. */
  predicate IsBoundary(line: string) {
    var t := Trim(line);
    t == [] || t[0] == '['
  }

  /** The key of a body line: the text before its first `=`, trimmed. */
  function KeyOf(line: string): string {
    Trim(BeforeFirst(line, '='))
  }

  /** The keys of `lines`, line by line. */
  function KeysOf(lines: seq<string>): (r: seq<string>) {
    seq(|lines|, i requires 0 <= i < |lines| => KeyOf(lines[i]))
  }

  // ---------------------------------------------------------------------------
  // The patch, stated as functions of the line list
  // ---------------------------------------------------------------------------

  /** The first index at or after `k` whose line trims to the header, or
      `|lines|` when there is none. */
  function HeaderIndexFrom(lines: seq<string>, k: nat): (r: nat)
    requires k <= |lines|
    ensures k <= r <= |lines|
    ensures forall j :: k <= j < r ==> Trim(lines[j]) != ReleaseHeader
    ensures r < |lines| ==> Trim(lines[r]) == ReleaseHeader
    decreases |lines| - k
  {
    if k == |lines| then k
    else if Trim(lines[k]) == ReleaseHeader then k
    else HeaderIndexFrom(lines, k + 1)
  }

  /** The section start: the first line that trims to exactly the header,
      and the last line when no line does. */
  function SectionStart(lines: seq<string>): (start: nat)
    requires |lines| > 0
    ensures start < |lines|
  {
    var h := HeaderIndexFrom(lines, 0);
    if h < |lines| then h else |lines| - 1
  }

  /** The section start is the first line that trims to the header, or the
      last line when none does. */
  lemma SectionStartIsFirstHeader(lines: seq<string>)
    requires |lines| > 0
    ensures var start := SectionStart(lines);
            && (forall j :: 0 <= j < start ==> Trim(lines[j]) != ReleaseHeader)
            && (Trim(lines[start]) == ReleaseHeader
                || (start == |lines| - 1 && forall j :: 0 <= j < |lines| ==> Trim(lines[j]) != ReleaseHeader))
  {
    var h := HeaderIndexFrom(lines, 0);
  }

  /** The first boundary line at or after `k`, or `|lines|`. */
  function BoundaryFrom(lines: seq<string>, k: nat): (r: nat)
    requires k <= |lines|
    ensures k <= r <= |lines|
    ensures forall j :: k <= j < r ==> !IsBoundary(lines[j])
    ensures r < |lines| ==> IsBoundary(lines[r])
    decreases |lines| - k
  {
    if k == |lines| then k
    else if IsBoundary(lines[k]) then k
    else BoundaryFrom(lines, k + 1)
  }

  /** The keys of the body lines of the section starting at `start`. */
  function BodyKeys(lines: seq<string>, start: nat): seq<string>
    requires start < |lines|
  {
    KeysOf(lines[start + 1..BoundaryFrom(lines, start + 1)])
  }

  /** The lines `key = value` of the settings whose key is not in `keys`, in
      order. */
  function MissingSettings(settings: seq<(string, string)>, keys: seq<string>): (r: seq<string>)
    ensures |r| <= |settings|
  {
    if settings == [] then []
    else
      var rest := MissingSettings(settings[..|settings| - 1], keys);
      var (key, value) := settings[|settings| - 1];
      if key in keys then rest else rest + [SettingLine(key, value)]
  }

  /** Every missing-setting line is the line of a setting whose key is not
      among `keys`. */
  lemma {:induction false} MissingSettingsFrom(settings: seq<(string, string)>, keys: seq<string>)
    ensures forall l :: l in MissingSettings(settings, keys) ==>
              exists j :: 0 <= j < |settings| && settings[j].0 !in keys
                          && l == SettingLine(settings[j].0, settings[j].1)
    decreases |settings|
  {
    if settings != [] {
      var n := |settings| - 1;
      var front := settings[..n];
      MissingSettingsFrom(front, keys);
      forall l | l in MissingSettings(settings, keys)
        ensures exists j :: 0 <= j < |settings| && settings[j].0 !in keys
                            && l == SettingLine(settings[j].0, settings[j].1)
      {
        if l in MissingSettings(front, keys) {
          var j :| 0 <= j < |front| && front[j].0 !in keys && l == SettingLine(front[j].0, front[j].1);
          assert settings[j] == front[j];
        } else {
          assert settings[n].0 !in keys && l == SettingLine(settings[n].0, settings[n].1);
        }
      }
    }
  }

  /** The keys of the settings that are not in `keys`, in order. */
  function MissingKeys(settings: seq<(string, string)>, keys: seq<string>): seq<string>
  {
    if settings == [] then []
    else
      var rest := MissingKeys(settings[..|settings| - 1], keys);
      var key := settings[|settings| - 1].0;
      if key in keys then rest else rest + [key]
  }

  /** The line list with the missing settings inserted, contiguously, at the
      end of the body of the section that starts at `SectionStart`. */
  function WithSettings(lines: seq<string>): seq<string>
    requires |lines| > 0
  {
    var start := SectionStart(lines);
    var pos := BoundaryFrom(lines, start + 1);
    lines[..pos] + MissingSettings(ReleaseProfileSettings, BodyKeys(lines, start)) + lines[pos..]
  }

  /** The lines of the snapshot with the header line appended when the
      snapshot nowhere contains the header text. */
  function BaseLines(content: string): (r: seq<string>)
    ensures |r| > 0
  {
    if Contains(content, ReleaseHeader) then
      assert |content| > 0 by {
        var i: nat :| i <= |content| && OccursAt(content, ReleaseHeader, i);
      }
      Lines(content)
    else Lines(content) + [ReleaseHeader]
  }

  function PatchLines(content: string): seq<string> {
    WithSettings(BaseLines(content))
  }

  /** The text `ensure_release_profile` writes: the patched lines joined by
      `\n`. */
  function PatchedText(content: string): string {
    Join(PatchLines(content))
  }

  // ---------------------------------------------------------------------------
  // The manager
  // ---------------------------------------------------------------------------

  class CargoConfigManager {
    /** The manifest the manager was opened on (the `cargo_toml` path). */
    const file: ManifestFile
    /** The snapshot taken when the manager was opened. */
    const originalContent: string

    constructor (file: ManifestFile, content: string)
      ensures this.file == file && originalContent == content
    {
      this.file := file;
      originalContent := content;
    }

    /** `CargoConfigManager::new`: reads the manifest and keeps its text. */
    static method New(file: ManifestFile) returns (r: Result<CargoConfigManager, Error>)
      ensures r.Ok? <==> file.readable
      ensures r.Ok? ==> fresh(r.value) && r.value.file == file && r.value.originalContent == file.text
      ensures r.Err? ==> r.error == IoFailure(ReadFailed)
    {
      var content := file.Read();
      if content.Err? {
        return Err(IoFailure(content.error));
      }
      var manager := new CargoConfigManager(file, content.value);
      return Ok(manager);
    }

    /** `ensure_release_profile`: recomputes the patch from the snapshot, never
        from the current file, and writes it. */
    method EnsureReleaseProfile() returns (r: Result<(), Error>)
      modifies file`text
      ensures r.Ok? <==> file.writable
      ensures r.Err? ==> r.error == IoFailure(WriteFailed)
      ensures file.text == if file.writable then PatchedText(originalContent) else old(file.text)
    {
      var lines := Lines(originalContent);
      lines := AddMissingSection(lines);
      lines := UpdateProfileSettings(lines);
      r := WriteFile(lines);
    }

    /** `add_missing_section`: a substring test on the snapshot, not a line
        test on `lines`. */
    method AddMissingSection(lines: seq<string>) returns (patched: seq<string>)
      ensures Contains(originalContent, ReleaseHeader) ==> patched == lines
      ensures !Contains(originalContent, ReleaseHeader) ==> patched == lines + [ReleaseHeader]
    {
      patched := lines;
      if !Contains(originalContent, ReleaseHeader) {
        patched := patched + [ReleaseHeader];
      }
    }

    /** `update_profile_settings`: each missing setting is inserted at the
        boundary found afresh after the previous insertion. */
    method UpdateProfileSettings(lines: seq<string>) returns (patched: seq<string>)
      requires |lines| > 0
      ensures patched == WithSettings(lines)
    {
      var start := FindSectionIndex(lines);
      var existing := ParseExistingSettings(lines, start);
      ghost var pos := BoundaryFrom(lines, start + 1);
      patched := lines;
      var i := 0;
      while i < |ReleaseProfileSettings|
        invariant i <= |ReleaseProfileSettings|
        invariant patched == lines[..pos] + MissingSettings(ReleaseProfileSettings[..i], existing) + lines[pos..]
      {
        var key, value := ReleaseProfileSettings[i].0, ReleaseProfileSettings[i].1;
        SettingsLoopStep(lines, start, existing, i, patched);
        if key !in existing {
          var p := FindInsertPosition(patched, start);
          patched := patched[..p] + [SettingLine(key, value)] + patched[p..];
        }
        i := i + 1;
      }
      assert ReleaseProfileSettings[..i] == ReleaseProfileSettings;
      assert WithSettings(lines) == lines[..pos] + MissingSettings(ReleaseProfileSettings, existing) + lines[pos..];
    }

    /** `find_section_index`: a first-match loop with early return, falling
        back to the last index. */
    method FindSectionIndex(lines: seq<string>) returns (index: nat)
      requires |lines| > 0
      ensures index == SectionStart(lines)
    {
      var i := 0;
      while i < |lines|
        invariant i <= |lines|
        invariant HeaderIndexFrom(lines, 0) == HeaderIndexFrom(lines, i)
      {
        if Trim(lines[i]) == ReleaseHeader {
          return i;
        }
        i := i + 1;
      }
      return |lines| - 1;
    }

    /** `parse_existing_settings`: the keys of the lines after `start` up to
        the first boundary line. */
    method ParseExistingSettings(lines: seq<string>, start: nat) returns (existing: seq<string>)
      requires start < |lines|
      ensures existing == BodyKeys(lines, start)
    {
      existing := [];
      var i := start + 1;
      while i < |lines|
        invariant start + 1 <= i <= |lines|
        invariant BoundaryFrom(lines, start + 1) == BoundaryFrom(lines, i)
        invariant existing == KeysOf(lines[start + 1..i])
      {
        if IsBoundary(lines[i]) {
          assert BoundaryFrom(lines, i) == i;
          break;
        }
        KeysOfExtend(lines, start + 1, i);
        existing := existing + [KeyOf(lines[i])];
        i := i + 1;
      }
    }

    /** `find_insert_position`: the first boundary line after `start`, or the
        end of the list. */
    method FindInsertPosition(lines: seq<string>, start: nat) returns (pos: nat)
      requires start < |lines|
      ensures pos == BoundaryFrom(lines, start + 1)
    {
      var i := start + 1;
      while i < |lines|
        invariant start + 1 <= i <= |lines|
        invariant BoundaryFrom(lines, start + 1) == BoundaryFrom(lines, i)
      {
        if IsBoundary(lines[i]) {
          return i;
        }
        i := i + 1;
      }
      return |lines|;
    }

    /** `write_file`: the lines joined by `\n`, with no final newline. */
    method WriteFile(lines: seq<string>) returns (r: Result<(), Error>)
      modifies file`text
      ensures r.Ok? <==> file.writable
      ensures r.Err? ==> r.error == IoFailure(WriteFailed)
      ensures file.text == if file.writable then Join(lines) else old(file.text)
    {
      var written := file.Write(Join(lines));
      r := if written.Ok? then Ok(()) else Err(IoFailure(written.error));
    }

    /** `restore`: writes the snapshot back verbatim. */
    method Restore() returns (r: Result<(), Error>)
      modifies file`text
      ensures r.Ok? <==> file.writable
      ensures r.Err? ==> r.error == IoFailure(WriteFailed)
      ensures file.text == if file.writable then originalContent else old(file.text)
    {
      var written := file.Write(originalContent);
      r := if written.Ok? then Ok(()) else Err(IoFailure(written.error));
    }
  }

  /** Calling `ensure_release_profile` any number of times leaves the same
      text: the patch of the snapshot. */
  method EnsureRepeatedly(manager: CargoConfigManager, n: nat) returns (r: Result<(), Error>)
    modifies manager.file`text
    ensures r.Ok? <==> (n == 0 || manager.file.writable)
    ensures n > 0 && manager.file.writable ==> manager.file.text == PatchedText(manager.originalContent)
    ensures !manager.file.writable || n == 0 ==> manager.file.text == old(manager.file.text)
  {
    r := Ok(());
    var i := 0;
    while i < n
      invariant i <= n
      invariant r.Ok?
      invariant i > 0 ==> manager.file.writable
      invariant i > 0 && manager.file.writable ==> manager.file.text == PatchedText(manager.originalContent)
      invariant !manager.file.writable || i == 0 ==> manager.file.text == old(manager.file.text)
    {
      r := manager.EnsureReleaseProfile();
      if r.Err? {
        return;
      }
      i := i + 1;
    }
  }

  /** A whole patch scope: open, patch `n` times, restore, where the file's
      permission may change to `restoreWritable` before the restore. A scope
      that succeeds leaves the text the file had before it opened; one whose
      restoring write fails after a successful patch leaves the patched
      text; any other failure happens before anything was written. */
  method PatchScope(file: ManifestFile, n: nat, restoreWritable: bool) returns (r: Result<(), Error>)
    modifies file`text, file`writable
    ensures r.Ok? <==> old(file.readable) && (n == 0 || old(file.writable)) && restoreWritable
    ensures r.Ok? ==> file.text == old(file.text)
    ensures old(file.readable) && n > 0 && old(file.writable) && !restoreWritable
            ==> file.text == PatchedText(old(file.text))
    ensures !(old(file.readable) && n > 0 && old(file.writable) && !restoreWritable) ==> file.text == old(file.text)
    ensures file.writable == if old(file.readable) && (n == 0 || old(file.writable)) then restoreWritable
                             else old(file.writable)
  {
    var opening := CargoConfigManager.New(file);
    if opening.Err? {
      return Err(opening.error);
    }
    var manager := opening.value;
    r := EnsureRepeatedly(manager, n);
    if r.Err? {
      return;
    }
    file.SetWritable(restoreWritable);
    r := manager.Restore();
  }

  // ---------------------------------------------------------------------------
  // Subsequences: what "insertions only" means
  // ---------------------------------------------------------------------------

  /** `a` is obtained from `b` by deleting elements, keeping the order. */
  ghost predicate IsSubsequence<T>(a: seq<T>, b: seq<T>)
    decreases |b|
  {
    if a == [] then true
    else if b == [] then false
    else (a[0] == b[0] && IsSubsequence(a[1..], b[1..])) || IsSubsequence(a, b[1..])
  }

  lemma {:induction false} SubsequenceReflexive<T>(a: seq<T>)
    ensures IsSubsequence(a, a)
    decreases |a|
  {
    if a != [] {
      SubsequenceReflexive(a[1..]);
    }
  }

  lemma {:induction false} SubsequenceOfPrefixed<T>(a: seq<T>, ins: seq<T>)
    ensures IsSubsequence(a, ins + a)
    decreases |ins|
  {
    if ins == [] {
      assert ins + a == a;
      SubsequenceReflexive(a);
    } else if a != [] {
      SubsequenceOfPrefixed(a, ins[1..]);
      assert (ins + a)[1..] == ins[1..] + a;
    }
  }

  /** Inserting a block anywhere keeps the original as a subsequence. */
  lemma {:induction false} SubsequenceOfInsertion<T>(a: seq<T>, p: nat, ins: seq<T>)
    requires p <= |a|
    ensures IsSubsequence(a, a[..p] + ins + a[p..])
    decreases p
  {
    if p == 0 {
      assert a[..0] + ins + a[0..] == ins + a;
      SubsequenceOfPrefixed(a, ins);
    } else {
      SubsequenceOfInsertion(a[1..], p - 1, ins);
      var b := a[..p] + ins + a[p..];
      assert b[0] == a[0];
      assert b[1..] == a[1..][..p - 1] + ins + a[1..][p - 1..];
    }
  }

  lemma SubsequenceOfAppended<T>(a: seq<T>, x: T)
    ensures IsSubsequence(a, a + [x])
  {
    SubsequenceOfInsertion(a, |a|, [x]);
    assert a[..|a|] + [x] + a[|a|..] == a + [x];
  }

  lemma {:induction false} SubsequenceTransitive<T>(a: seq<T>, b: seq<T>, c: seq<T>)
    requires IsSubsequence(a, b) && IsSubsequence(b, c)
    ensures IsSubsequence(a, c)
    decreases |c|
  {
    if a != [] {
      assert b != [] && c != [];
      if b[0] == c[0] && IsSubsequence(b[1..], c[1..]) {
        if a[0] == b[0] && IsSubsequence(a[1..], b[1..]) {
          SubsequenceTransitive(a[1..], b[1..], c[1..]);
        } else {
          SubsequenceTransitive(a, b[1..], c[1..]);
        }
      } else {
        SubsequenceTransitive(a, b, c[1..]);
      }
    }
  }

  /** The slices of a list with a block inserted at `p`. */
  lemma InsertionSlices<T>(a: seq<T>, p: nat, ins: seq<T>, lo: nat)
    requires lo <= p <= |a|
    ensures var b := a[..p] + ins + a[p..];
            && b[lo..p + |ins|] == a[lo..p] + ins
            && b[p + |ins|..] == a[p..]
  {
    var b := a[..p] + ins + a[p..];
    assert forall i :: lo <= i < p ==> b[i] == a[i];
    assert forall i :: p <= i < p + |ins| ==> b[i] == ins[i - p];
    assert b[lo..p + |ins|] == a[lo..p] + ins;
  }

  /** The elements of a list with a block inserted at `p`. */
  lemma InsertionIndices<T>(a: seq<T>, p: nat, ins: seq<T>)
    requires p <= |a|
    ensures var b, q := a[..p] + ins + a[p..], p + |ins|;
            && |b| == |a| + |ins|
            && (forall j :: 0 <= j < p ==> b[j] == a[j])
            && (forall j :: p <= j < q ==> b[j] == ins[j - p])
            && (forall j :: q <= j < |b| ==> b[j] == a[j - |ins|])
  {
  }

  /** Inserting nothing changes nothing. */
  lemma InsertNothing<T>(a: seq<T>, p: nat)
    requires p <= |a|
    ensures a[..p] + [] + a[p..] == a
  {
  }

  /** Inserting `x` right after a block inserted at `p` extends the block. */
  lemma InsertAfterBlock<T>(a: seq<T>, p: nat, ins: seq<T>, x: T)
    requires p <= |a|
    ensures var b, q := a[..p] + ins + a[p..], p + |ins|;
            b[..q] + [x] + b[q..] == a[..p] + (ins + [x]) + a[p..]
  {
    InsertionSlices(a, p, ins, 0);
    var b, q := a[..p] + ins + a[p..], p + |ins|;
    assert b[0..q] == b[..q];
    assert a[0..p] == a[..p];
  }

  // ---------------------------------------------------------------------------
  // Facts about the settings
  // ---------------------------------------------------------------------------

  /** A line that starts with a character that is neither whitespace nor `[`
      is a body line. */
  lemma BodyLine(line: string)
    requires line != [] && !IsWhitespace(line[0]) && line[0] != '['
    ensures !IsBoundary(line)
  {
    assert TrimStart(line) == line;
    var t := TrimEnd(line);
    TrimEndFacts(line);
    assert t != [];
    assert t[0] == line[0];
  }

  /** The key of `key = value` is `key`, for a key without `=` and without
      whitespace at its ends. */
  lemma KeyOfSettingLine(key: string, value: string)
    requires key != [] && '=' !in key
    requires !IsWhitespace(key[0]) && !IsWhitespace(key[|key| - 1])
    ensures KeyOf(SettingLine(key, value)) == key
  {
    var line := SettingLine(key, value);
    assert line[|key|] == ' ' && line[|key| + 1] == '=';
    assert forall i :: 0 <= i < |key| ==> line[i] == key[i];
    var i := IndexOf(line, '=');
    IndexOfFacts(line, '=');
    assert forall j :: 0 <= j < |key| ==> key[j] in key;
    assert i == |key| + 1;
    var before := BeforeFirst(line, '=');
    assert before == key + " ";
    assert TrimStart(before) == before;
    var t := TrimEnd(before);
    TrimEndFacts(before);
    assert before[|key| - 1] == key[|key| - 1] && IsWhitespace(before[|key|]);
    assert |t| == |key|;
    assert t == key;
  }

  /** Each of the five settings: its line is a body line, is not the header,
      and has its own key. */
  lemma ReleaseSettingFacts(j: nat)
    requires j < |ReleaseProfileSettings|
    ensures var (key, value) := ReleaseProfileSettings[j];
            && !IsBoundary(SettingLine(key, value))
            && SettingLine(key, value) != ReleaseHeader
            && KeyOf(SettingLine(key, value)) == key
            && key in SettingKeys
  {
    var (key, value) := ReleaseProfileSettings[j];
    assert key[0] in "oclps" && '=' !in key && !IsWhitespace(key[|key| - 1]);
    BodyLine(SettingLine(key, value));
    KeyOfSettingLine(key, value);
    assert SettingLine(key, value)[0] != ReleaseHeader[0];
  }

  lemma SettingLinesAreBodyLines(settings: seq<(string, string)>, keys: seq<string>)
    requires |settings| <= |ReleaseProfileSettings|
    requires settings == ReleaseProfileSettings[..|settings|]
    ensures forall l :: l in MissingSettings(settings, keys) ==> !IsBoundary(l) && l != ReleaseHeader
  {
    MissingSettingsFrom(settings, keys);
    forall l | l in MissingSettings(settings, keys)
      ensures !IsBoundary(l) && l != ReleaseHeader
    {
      var j :| 0 <= j < |settings| && settings[j].0 !in keys && l == SettingLine(settings[j].0, settings[j].1);
      assert settings[j] == ReleaseProfileSettings[j];
      ReleaseSettingFacts(j);
    }
  }

  /** The insertion point moves down by exactly the number of body lines
      inserted at it. */
  lemma InsertionKeepsBoundary(lines: seq<string>, start: nat, inserted: seq<string>)
    requires start < |lines|
    requires forall l :: l in inserted ==> !IsBoundary(l)
    ensures var pos := BoundaryFrom(lines, start + 1);
            BoundaryFrom(lines[..pos] + inserted + lines[pos..], start + 1) == pos + |inserted|
  {
    var pos := BoundaryFrom(lines, start + 1);
    var out := lines[..pos] + inserted + lines[pos..];
    var q := pos + |inserted|;
    InsertionIndices(lines, pos, inserted);
    forall j | start + 1 <= j < q ensures !IsBoundary(out[j]) {
      if j >= pos { assert out[j] in inserted; }
    }
    BoundaryFromIs(out, start + 1, q);
  }

  /** `BoundaryFrom` is the first boundary line at or after `k`. */
  lemma BoundaryFromIs(lines: seq<string>, k: nat, r: nat)
    requires k <= r <= |lines|
    requires forall j :: k <= j < r ==> !IsBoundary(lines[j])
    requires r < |lines| ==> IsBoundary(lines[r])
    ensures BoundaryFrom(lines, k) == r
  {
    var b := BoundaryFrom(lines, k);
  }
  /** One round of the settings loop: inserting the next missing setting at
      the boundary found afresh extends the inserted block by its line. */
  lemma SettingsLoopStep(lines: seq<string>, start: nat, existing: seq<string>, i: nat, patched: seq<string>)
    requires start < |lines| && i < |ReleaseProfileSettings|
    requires var pos := BoundaryFrom(lines, start + 1);
             patched == lines[..pos] + MissingSettings(ReleaseProfileSettings[..i], existing) + lines[pos..]
    ensures start < |patched|
    ensures var pos := BoundaryFrom(lines, start + 1);
            var key, value := ReleaseProfileSettings[i].0, ReleaseProfileSettings[i].1;
            var p := BoundaryFrom(patched, start + 1);
            var next := MissingSettings(ReleaseProfileSettings[..i + 1], existing);
            if key in existing then lines[..pos] + next + lines[pos..] == patched
            else lines[..pos] + next + lines[pos..] == patched[..p] + [SettingLine(key, value)] + patched[p..]
  {
    var pos := BoundaryFrom(lines, start + 1);
    var inserted := MissingSettings(ReleaseProfileSettings[..i], existing);
    var (key, value) := ReleaseProfileSettings[i];
    assert ReleaseProfileSettings[..i + 1][..i] == ReleaseProfileSettings[..i];
    if key !in existing {
      SettingLinesAreBodyLines(ReleaseProfileSettings[..i], existing);
      InsertionKeepsBoundary(lines, start, inserted);
      InsertAfterBlock(lines, pos, inserted, SettingLine(key, value));
    }
  }

  // ---------------------------------------------------------------------------
  // Properties of the patch
  // ---------------------------------------------------------------------------

  /** None of the five setting lines ends a section body or is the header. */
  lemma AllSettingLinesAreBodyLines(keys: seq<string>)
    ensures forall l :: l in MissingSettings(ReleaseProfileSettings, keys) ==> !IsBoundary(l) && l != ReleaseHeader
  {
    assert ReleaseProfileSettings[..|ReleaseProfileSettings|] == ReleaseProfileSettings;
    SettingLinesAreBodyLines(ReleaseProfileSettings, keys);
  }

  /** The settings pass inserts the missing settings as one block at the end
      of the section body (before the first blank or header line after the
      section start, or at the end of the list, never after a later header);
      the block consists of body lines, so the boundary after it is the old
      one. */
  lemma WithSettingsShape(lines: seq<string>)
    requires |lines| > 0
    ensures var start := SectionStart(lines);
            var pos := BoundaryFrom(lines, start + 1);
            var ins := MissingSettings(ReleaseProfileSettings, BodyKeys(lines, start));
            var patched := WithSettings(lines);
            && start < pos <= |lines|
            && (pos == |lines| || IsBoundary(lines[pos]))
            && patched == lines[..pos] + ins + lines[pos..]
            && BoundaryFrom(patched, start + 1) == pos + |ins|
            && (forall l :: l in ins ==> !IsBoundary(l) && l != ReleaseHeader)
  {
    var start := SectionStart(lines);
    var keys := BodyKeys(lines, start);
    AllSettingLinesAreBodyLines(keys);
    InsertionKeepsBoundary(lines, start, MissingSettings(ReleaseProfileSettings, keys));
  }

  /** The settings pass only inserts: the old lines are a subsequence of
      the new ones, and at most the five settings are added. */
  lemma WithSettingsKeepsLines(lines: seq<string>)
    requires |lines| > 0
    ensures IsSubsequence(lines, WithSettings(lines))
    ensures |lines| <= |WithSettings(lines)| <= |lines| + |ReleaseProfileSettings|
  {
    var start := SectionStart(lines);
    var pos := BoundaryFrom(lines, start + 1);
    var ins := MissingSettings(ReleaseProfileSettings, BodyKeys(lines, start));
    WithSettingsShape(lines);
    SubsequenceOfInsertion(lines, pos, ins);
  }

  /** No original line is removed, altered or reordered: the snapshot's
      lines are a subsequence of the patched lines, and at most the header
      and the five settings are added. */
  lemma PatchKeepsOriginalLines(content: string)
    ensures IsSubsequence(Lines(content), PatchLines(content))
    ensures |Lines(content)| <= |PatchLines(content)| <= |Lines(content)| + 1 + |ReleaseProfileSettings|
  {
    var lines, base := Lines(content), BaseLines(content);
    WithSettingsKeepsLines(base);
    if base != lines {
      SubsequenceOfAppended(lines, ReleaseHeader);
      SubsequenceTransitive(lines, base, WithSettings(base));
    }
  }

  /** After the settings pass, the keys of the section body are the old keys
      followed by the missing setting keys in `RELEASE_PROFILE_SETTINGS`
      order. */
  lemma WithSettingsBodyKeys(lines: seq<string>)
    requires |lines| > 0
    ensures var start := SectionStart(lines);
            var keys := BodyKeys(lines, start);
            var patched := WithSettings(lines);
            && start < |patched|
            && BodyKeys(patched, start) == keys + MissingKeys(ReleaseProfileSettings, keys)
  {
    var start := SectionStart(lines);
    var pos := BoundaryFrom(lines, start + 1);
    var keys := BodyKeys(lines, start);
    var ins := MissingSettings(ReleaseProfileSettings, keys);
    var patched := WithSettings(lines);
    assert start < pos <= |lines| && patched == lines[..pos] + ins + lines[pos..]
           && BoundaryFrom(patched, start + 1) == pos + |ins| by {
      WithSettingsShape(lines);
    }
    BodyKeysAfterInsertion(lines, start, pos, ins, patched);
    assert KeysOf(ins) == MissingKeys(ReleaseProfileSettings, keys) by {
      assert ReleaseProfileSettings[..|ReleaseProfileSettings|] == ReleaseProfileSettings;
      KeysOfMissing(ReleaseProfileSettings, keys);
    }
  }

  /** A block inserted at the body's boundary, which moves the boundary past
      it, adds its keys after the body's keys. */
  lemma BodyKeysAfterInsertion(lines: seq<string>, start: nat, pos: nat, ins: seq<string>, patched: seq<string>)
    requires start < pos <= |lines| && pos == BoundaryFrom(lines, start + 1)
    requires patched == lines[..pos] + ins + lines[pos..]
    requires BoundaryFrom(patched, start + 1) == pos + |ins|
    ensures BodyKeys(patched, start) == BodyKeys(lines, start) + KeysOf(ins)
  {
    InsertionSlices(lines, pos, ins, start + 1);
    KeysOfAppend(lines[start + 1..pos], ins);
  }

  lemma KeysOfAppend(a: seq<string>, b: seq<string>)
    ensures KeysOf(a + b) == KeysOf(a) + KeysOf(b)
  {
    assert forall i :: 0 <= i < |a + b| ==> KeysOf(a + b)[i] == (KeysOf(a) + KeysOf(b))[i];
  }

  /** The keys of a slice grow by the key of the next line. */
  lemma KeysOfExtend(lines: seq<string>, lo: nat, i: nat)
    requires lo <= i < |lines|
    ensures KeysOf(lines[lo..i + 1]) == KeysOf(lines[lo..i]) + [KeyOf(lines[i])]
  {
    assert lines[lo..i + 1] == lines[lo..i] + [lines[i]];
    KeysOfAppend(lines[lo..i], [lines[i]]);
  }

  lemma {:induction false} KeysOfMissing(settings: seq<(string, string)>, keys: seq<string>)
    requires |settings| <= |ReleaseProfileSettings|
    requires settings == ReleaseProfileSettings[..|settings|]
    ensures KeysOf(MissingSettings(settings, keys)) == MissingKeys(settings, keys)
    decreases |settings|
  {
    if settings != [] {
      var n := |settings| - 1;
      var front := settings[..n];
      assert front == ReleaseProfileSettings[..n];
      KeysOfMissing(front, keys);
      var (key, value) := settings[n];
      if key !in keys {
        ReleaseSettingFacts(n);
        KeysOfAppend(MissingSettings(front, keys), [SettingLine(key, value)]);
      }
    }
  }

  /** Each setting key appears in the missing keys once when it is not among
      `keys`, and never otherwise; no other key appears. */
  lemma {:induction false} MissingKeysCount(i: nat, keys: seq<string>, x: string)
    requires i <= |ReleaseProfileSettings|
    ensures multiset(MissingKeys(ReleaseProfileSettings[..i], keys))[x]
            == if x in keys || (forall j :: 0 <= j < i ==> ReleaseProfileSettings[j].0 != x) then 0 else 1
  {
    if i > 0 {
      var s := ReleaseProfileSettings[..i];
      assert s[..i - 1] == ReleaseProfileSettings[..i - 1];
      MissingKeysCount(i - 1, keys, x);
      SettingKeysDistinct();
    }
  }

  /** The five keys are pairwise distinct (their first letters already
      differ). */
  lemma SettingKeysDistinct()
    ensures forall a, b :: 0 <= a < b < |ReleaseProfileSettings| ==>
              ReleaseProfileSettings[a].0 != ReleaseProfileSettings[b].0
  {
    var initials := "olcps";
    assert forall a :: 0 <= a < |ReleaseProfileSettings| ==> ReleaseProfileSettings[a].0[0] == initials[a];
  }

  /** No duplicate key is added: a setting key already in the section body
      keeps its count, a missing one appears exactly once, and every other
      key keeps its count. */
  lemma PatchAddsNoDuplicateKeys(lines: seq<string>, x: string)
    requires |lines| > 0
    ensures var start := SectionStart(lines);
            var keys := BodyKeys(lines, start);
            var patched := WithSettings(lines);
            && start < |patched|
            && multiset(BodyKeys(patched, start))[x]
               == multiset(keys)[x] + (if x in keys || x !in SettingKeys then 0 else 1)
  {
    var start := SectionStart(lines);
    var keys := BodyKeys(lines, start);
    WithSettingsBodyKeys(lines);
    MissingKeysCount(|ReleaseProfileSettings|, keys, x);
    assert ReleaseProfileSettings[..|ReleaseProfileSettings|] == ReleaseProfileSettings;
  }

  /** The settings pass never adds a header line. */
  lemma WithSettingsAddsNoHeader(lines: seq<string>)
    requires |lines| > 0
    ensures multiset(WithSettings(lines))[ReleaseHeader] == multiset(lines)[ReleaseHeader]
  {
    var start := SectionStart(lines);
    var pos := BoundaryFrom(lines, start + 1);
    var ins := MissingSettings(ReleaseProfileSettings, BodyKeys(lines, start));
    WithSettingsShape(lines);
    CountAfterInsertion(lines, pos, ins, ReleaseHeader);
  }

  /** Inserting a block that does not hold `x` keeps the count of `x`. */
  lemma CountAfterInsertion<T>(a: seq<T>, p: nat, ins: seq<T>, x: T)
    requires p <= |a| && x !in ins
    ensures multiset(a[..p] + ins + a[p..])[x] == multiset(a)[x]
  {
    assert a == a[..p] + a[p..];
    assert multiset(ins)[x] == 0;
  }

  /** The header line occurs once more in the patched lines than in the
      snapshot's lines exactly when the snapshot does not contain the header
      text; otherwise no header line is added. */
  lemma PatchAddsHeaderIff(content: string)
    ensures multiset(PatchLines(content))[ReleaseHeader]
            == multiset(Lines(content))[ReleaseHeader] + (if Contains(content, ReleaseHeader) then 0 else 1)
  {
    WithSettingsAddsNoHeader(BaseLines(content));
  }

  /** A line that trims to the header contains the header text. */
  lemma TrimmedHeaderContains(line: string)
    ensures Trim(line) == ReleaseHeader ==> Contains(line, ReleaseHeader)
  {
    if Trim(line) == ReleaseHeader {
      var a := |line| - |TrimStart(line)|;
      TrimFacts(line);
      assert line[a..a + |ReleaseHeader|] == ReleaseHeader;
      assert OccursAt(line, ReleaseHeader, a);
    }
  }

  /** A snapshot that nowhere contains the header text has no line that
      trims to the header. */
  lemma NoHeaderLine(content: string)
    requires !Contains(content, ReleaseHeader)
    ensures forall k :: 0 <= k < |Lines(content)| ==> Trim(Lines(content)[k]) != ReleaseHeader
  {
    forall k | 0 <= k < |Lines(content)| ensures Trim(Lines(content)[k]) != ReleaseHeader {
      TrimmedHeaderContains(Lines(content)[k]);
      if Contains(Lines(content)[k], ReleaseHeader) {
        LineContains(content, k, ReleaseHeader);
      }
    }
  }

  /** The section starts at the first line that trims to the header. */
  lemma SectionStartAt(lines: seq<string>, m: nat)
    requires m < |lines| && Trim(lines[m]) == ReleaseHeader
    requires forall j :: 0 <= j < m ==> Trim(lines[j]) != ReleaseHeader
    ensures SectionStart(lines) == m
  {
    var h := HeaderIndexFrom(lines, 0);
  }

  /** With no key present, all five settings are missing, in order. */
  lemma AllSettingsMissing()
    ensures MissingSettings(ReleaseProfileSettings, [])
            == ["opt-level = 'z'", "lto = true", "codegen-units = 1", "panic = 'abort'", "strip = true"]
  {
    var s := ReleaseProfileSettings;
    assert SettingLine(s[0].0, s[0].1) == "opt-level = 'z'";
    assert SettingLine(s[1].0, s[1].1) == "lto = true";
    assert SettingLine(s[2].0, s[2].1) == "codegen-units = 1";
    assert SettingLine(s[3].0, s[3].1) == "panic = 'abort'";
    assert SettingLine(s[4].0, s[4].1) == "strip = true";
    assert s[..1][..0] == s[..0] && MissingSettings(s[..0], []) == [];
    assert MissingSettings(s[..1], []) == ["opt-level = 'z'"];
    assert s[..2][..1] == s[..1];
    assert MissingSettings(s[..2], []) == ["opt-level = 'z'", "lto = true"];
    assert s[..3][..2] == s[..2];
    assert MissingSettings(s[..3], []) == ["opt-level = 'z'", "lto = true", "codegen-units = 1"];
    assert s[..4][..3] == s[..3];
    assert MissingSettings(s[..4], []) == ["opt-level = 'z'", "lto = true", "codegen-units = 1", "panic = 'abort'"];
    assert s[..5][..4] == s[..4] && s[..5] == s;
  }

  /** The header line is already trimmed. */
  lemma HeaderIsTrimmed()
    ensures Trim(ReleaseHeader) == ReleaseHeader
  {
    assert TrimStart(ReleaseHeader) == ReleaseHeader;
  }

  /** A header line appended to a list with no header line starts an empty
      section at the end, which receives all five settings. */
  lemma SectionAppended(lines: seq<string>)
    requires forall k :: 0 <= k < |lines| ==> Trim(lines[k]) != ReleaseHeader
    ensures WithSettings(lines + [ReleaseHeader]) == lines + [ReleaseHeader,
              "opt-level = 'z'", "lto = true", "codegen-units = 1", "panic = 'abort'", "strip = true"]
  {
    var base := lines + [ReleaseHeader];
    var n := |lines|;
    HeaderIsTrimmed();
    SectionStartAt(base, n);
    assert BoundaryFrom(base, n + 1) == n + 1;
    assert base[n + 1..n + 1] == [];
    assert BodyKeys(base, n) == [];
    AllSettingsMissing();
    assert base[..n + 1] == base && base[n + 1..] == [];
  }

  /** Section creation: a manifest whose text nowhere contains the header
      gets the header as a new last line followed by all five settings in
      order, and nothing else changes. */
  lemma PatchCreatesSection(content: string)
    requires !Contains(content, ReleaseHeader)
    ensures PatchLines(content) == Lines(content) + [ReleaseHeader,
              "opt-level = 'z'", "lto = true", "codegen-units = 1", "panic = 'abort'", "strip = true"]
  {
    NoHeaderLine(content);
    SectionAppended(Lines(content));
  }

  /** When the header text occurs only inside some longer line, no line
      trims to the header: the section start falls back to the last line,
      whose body is empty, so all five settings are appended at the very
      end and no header is added. */
  lemma HeaderOnlyInsideLine(content: string)
    requires Contains(content, ReleaseHeader)
    requires forall k :: 0 <= k < |Lines(content)| ==> Trim(Lines(content)[k]) != ReleaseHeader
    ensures PatchLines(content) == Lines(content) + [
              "opt-level = 'z'", "lto = true", "codegen-units = 1", "panic = 'abort'", "strip = true"]
  {
    var lines := BaseLines(content);
    var n := |lines|;
    SectionStartIsFirstHeader(lines);
    assert SectionStart(lines) == n - 1;
    assert BoundaryFrom(lines, n) == n;
    assert lines[n..n] == [];
    assert BodyKeys(lines, n - 1) == [];
    AllSettingsMissing();
    assert lines[..n] == lines && lines[n..] == [];
  }

  /** Every missing setting comes with a key that is absent; so when every
      key is present, none is missing. */
  lemma {:induction false} NoneMissing(settings: seq<(string, string)>, keys: seq<string>)
    requires forall j :: 0 <= j < |settings| ==> settings[j].0 in keys
    ensures MissingSettings(settings, keys) == []
    decreases |settings|
  {
    if settings != [] {
      NoneMissing(settings[..|settings| - 1], keys);
    }
  }

  /** A section that already holds all five keys gets no new line. */
  lemma CompleteSectionUnchanged(lines: seq<string>)
    requires |lines| > 0
    requires forall j :: 0 <= j < |ReleaseProfileSettings| ==>
               ReleaseProfileSettings[j].0 in BodyKeys(lines, SectionStart(lines))
    ensures WithSettings(lines) == lines
  {
    var start := SectionStart(lines);
    var pos := BoundaryFrom(lines, start + 1);
    NoneMissing(ReleaseProfileSettings, BodyKeys(lines, start));
    InsertNothing(lines, pos);
  }

  /** Even when no line is inserted, a manifest that ends with a newline is
      rewritten with different text: `lines()` drops the final newline and
      the join does not restore it. */
  lemma NewlineTerminatedManifestRewritten(content: string)
    requires content != [] && content[|content| - 1] == '\n'
    ensures PatchLines(content) == Lines(content) ==> PatchedText(content) != content
  {
    JoinLinesLength(content);
  }

  /** A manifest with CRLF terminators is rewritten with LF terminators even
      when no line is inserted: `lines()` drops each `\r` before a `\n` and
      the join writes only `\n`. */
  lemma CrlfManifestRewritten(content: string)
    requires exists k :: 0 <= k && k + 1 < |content| && content[k] == '\r' && content[k + 1] == '\n'
    ensures PatchLines(content) == Lines(content) ==> PatchedText(content) != content
  {
    CrlfDropped(content);
  }
}
