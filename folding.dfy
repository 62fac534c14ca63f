/** Uninstalling on a case-insensitive volume, the default on macOS, which
    is the only platform the program runs on. There `versions/<v>` exists
    whenever an installed name differs from `v` only in letter case, while
    the active-version check compares the names exactly. The rest of the
    model treats the disk as case-sensitive. */
module Folding {
  import opened Results
  import opened Paths
  import opened Shell
  import opened Store

  /** `versions/<version>` exists on a case-insensitive volume: for the
      empty string that is `versions/` itself; for a plain name, some
      installed name spells the same name up to letter case. */
  predicate FoldedExists(fs: Fs, version: string)
  {
    if version == "" then fs.versionsDir
    else IsPlainName(version) && exists n :: n in fs.installed && Lower(n) == Lower(version)
  }

  /** `get_current_version` on such a volume: the link resolves when its
      target exists up to case, and reads back as the link spells it. */
  function CurrentFolded(fs: Fs): (r: Option<string>)
    ensures r.Some? ==> fs.link.Some?
    ensures r.Some? && fs.link.value != "" ==> r.value == fs.link.value && FoldedExists(fs, r.value)
    ensures fs.link.Some? && fs.link.value != "" && FoldedExists(fs, fs.link.value) ==> r == fs.link
    ensures fs.link == Some("") ==> r == (if fs.versionsDir then Some("versions") else None)
  {
    if fs.link.None? then None
    else if fs.link.value == "" then (if fs.versionsDir then Some("versions") else None)
    else if FoldedExists(fs, fs.link.value) then fs.link
    else None
  }

  /** `remove_dir_all(versions/<version>)` on such a volume: the directory
      removed is the one whose name folds to `version`, or all of
      `versions/` for the empty string. */
  function RemoveFolded(fs: Fs, version: string): (r: Fs)
    ensures r.link == fs.link
    ensures version == "" ==> r == Fs(false, {}, {}, fs.link)
    ensures version != "" ==> r.versionsDir == fs.versionsDir
    ensures version != "" ==> forall n :: n in r.installed <==> n in fs.installed && Lower(n) != Lower(version)
    ensures version != "" ==> forall n :: n in r.hasBinary <==> n in fs.hasBinary && Lower(n) != Lower(version)
  {
    if version == "" then fs.(versionsDir := false, installed := {}, hasBinary := {})
    else
      var kept := set n | n in fs.installed && Lower(n) != Lower(version);
      var withBinary := set n | n in fs.hasBinary && Lower(n) != Lower(version);
      fs.(installed := kept, hasBinary := withBinary)
  }

  /** `uninstall_version` as written, on a case-insensitive volume. */
  function UninstallFoldingAsWritten(fs: Fs, version: string): (s: Step)
    ensures s.fs.link == fs.link
    ensures !FoldedExists(fs, version) ==> s == Step(fs, Fail(NotInstalled(version)))
    ensures s.outcome.Pass? <==> FoldedExists(fs, version) && CurrentFolded(fs) != Some(version)
    ensures s.outcome.Pass? ==> !FoldedExists(s.fs, version)
  {
    if !FoldedExists(fs, version) then Step(fs, Fail(NotInstalled(version)))
    else if CurrentFolded(fs) == Some(version) then Step(fs, Fail(ActiveVersion))
    else Step(RemoveFolded(fs, version), Pass)
  }

  /** `uninstall_version` corrected for such a volume: only a plain name is
      accepted, and the active check ignores case, as the volume does. */
  function UninstallFolding(fs: Fs, version: string): (s: Step)
    ensures s.fs.link == fs.link
    ensures !(IsPlainName(version) && FoldedExists(fs, version)) ==> s == Step(fs, Fail(NotInstalled(version)))
    ensures s.outcome.Pass? <==>
      && IsPlainName(version) && FoldedExists(fs, version)
      && !(CurrentFolded(fs).Some? && Lower(CurrentFolded(fs).value) == Lower(version))
    ensures s.outcome.Fail? ==> s.fs == fs
  {
    if !(IsPlainName(version) && FoldedExists(fs, version)) then Step(fs, Fail(NotInstalled(version)))
    else if CurrentFolded(fs).Some? && Lower(CurrentFolded(fs).value) == Lower(version) then Step(fs, Fail(ActiveVersion))
    else Step(RemoveFolded(fs, version), Pass)
  }

  /** As written: with `v1` in use, `uninstall V1` passes the exact active
      check, removes `versions/v1`, and leaves no version in use. */
  lemma UninstallFoldingAsWrittenRemovesActive()
    ensures var fs := Fs(true, {"v1"}, {"v1"}, Some("v1"));
      var s := UninstallFoldingAsWritten(fs, "V1");
      && CurrentFolded(fs) == Some("v1")
      && s.outcome == Pass
      && "v1" !in s.fs.installed
      && CurrentFolded(s.fs) == None
  {
    var fs := Fs(true, {"v1"}, {"v1"}, Some("v1"));
    assert Lower("v1") == "v1";
    assert Lower("V1") == "v1";
    assert IsPlainName("v1") && IsPlainName("V1");
    assert FoldedExists(fs, "V1");
    var s := UninstallFoldingAsWritten(fs, "V1");
    assert !FoldedExists(s.fs, "v1");
  }

  /** On the empty string letter case plays no part: the code as written
      behaves on such a volume as on any other, and deletes `versions/`. */
  lemma UninstallFoldingAsWrittenOnEmpty(fs: Fs, base: string)
    ensures UninstallFoldingAsWritten(fs, "") == UninstallAsWritten(fs, base, "")
  {
    var cur := CurrentVersion(fs, base);
    assert cur.Ok? ==> cur.value != "";
  }

  /** Corrected: whatever spelling is uninstalled, a version in use before
      is still in use afterwards, under the same name. */
  lemma UninstallFoldingKeepsActive(fs: Fs, version: string)
    requires CurrentFolded(fs).Some?
    ensures CurrentFolded(UninstallFolding(fs, version).fs) == CurrentFolded(fs)
  {
    var s := UninstallFolding(fs, version);
    if s.outcome.Pass? && fs.link.value != "" {
      var c := fs.link.value;
      var n :| n in fs.installed && Lower(n) == Lower(c);
      assert n in s.fs.installed;
      assert FoldedExists(s.fs, c);
    }
  }
}
