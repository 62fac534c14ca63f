/** Properties of the version lifecycle: how installing, activating,
    uninstalling and listing relate to one another. */
module Lifecycle {
  import opened Results
  import opened Paths
  import opened Catalog
  import opened Store

  // ---------------------------------------------------------------------
  // Activation

  /** After a successful activation the current version is the one activated. */
  lemma SetDefaultThenCurrent(fs: Fs, base: string, version: string)
    requires version != ""
    requires SetDefault(fs, version).outcome.Pass?
    ensures CurrentVersion(SetDefault(fs, version).fs, base) == Ok(version)
  {
  }

  /** The link is replaced before the binary is checked: activating an
      installed version without a `sui` binary fails, yet that version is
      then the current one. */
  lemma SetDefaultMovesLinkWithoutBinary(fs: Fs, base: string, version: string)
    requires Installed(fs, version) && version !in fs.hasBinary
    requires !LinkDangles(fs)
    ensures SetDefault(fs, version).outcome == Fail(BinaryMissing(version))
    ensures CurrentVersion(SetDefault(fs, version).fs, base) == Ok(version)
  {
  }

  /** A dangling `current` is not removed, so the new link cannot be created. */
  lemma SetDefaultBlockedByDanglingLink(fs: Fs, base: string, version: string)
    requires DirExists(fs, version) && LinkDangles(fs)
    ensures SetDefault(fs, version) == Step(fs, Fail(Io(CreateLink)))
    ensures CurrentVersion(fs, base) == Err(NoVersionInUse)
  {
  }

  /** Activating twice is the same as activating once, and the second call
      succeeds too. */
  lemma SetDefaultTwice(fs: Fs, version: string)
    requires SetDefault(fs, version).outcome.Pass?
    ensures SetDefault(SetDefault(fs, version).fs, version) == SetDefault(fs, version)
  {
    var s := SetDefault(fs, version);
    assert LinkResolves(s.fs);
  }

  // ---------------------------------------------------------------------
  // Uninstalling

  /** The version the link names cannot be uninstalled; its directory stays. */
  lemma UninstallRefusesActive(fs: Fs, base: string, version: string)
    requires Installed(fs, version) && fs.link == Some(version)
    ensures Uninstall(fs, base, version) == Step(fs, Fail(ActiveVersion))
    ensures version in Uninstall(fs, base, version).fs.installed
  {
  }

  /** With no link, or a dangling one, the active-version check is skipped. */
  lemma UninstallWithoutActive(fs: Fs, base: string, version: string)
    requires Installed(fs, version) && !LinkResolves(fs)
    ensures Uninstall(fs, base, version).outcome == Pass
    ensures Uninstall(fs, base, version).fs.installed == fs.installed - {version}
    ensures Uninstall(fs, base, version).fs.link == fs.link
  {
  }

  /** Uninstalling never strands the link: if `current` resolved before, it
      resolves afterwards, to the same version. */
  lemma UninstallKeepsActive(fs: Fs, base: string, version: string)
    requires LinkResolves(fs)
    ensures LinkResolves(Uninstall(fs, base, version).fs)
    ensures CurrentVersion(Uninstall(fs, base, version).fs, base) == CurrentVersion(fs, base)
  {
    var s := Uninstall(fs, base, version);
    if s.outcome.Pass? {
      var target := fs.link.value;
      if target != "" {
        assert CurrentVersion(fs, base) == Ok(target);
        assert target != version;
        assert target in s.fs.installed;
      }
    }
  }

  /** On a plain version name the corrected uninstall and the one as
      written agree; they differ only on names that are not one entry. */
  lemma UninstallAgreesOnPlainNames(fs: Fs, base: string, version: string)
    requires IsPlainName(version)
    ensures Uninstall(fs, base, version) == UninstallAsWritten(fs, base, version)
  {
  }

  /** As written, `uninstall ""` passes both checks whenever `versions/`
      exists (no version in use is ever called "") and removes the whole
      `versions/` directory, the version in use included. */
  lemma UninstallAsWrittenEmptyRemovesAll(fs: Fs, base: string)
    requires fs.versionsDir
    ensures UninstallAsWritten(fs, base, "") == Step(Fs(false, {}, {}, fs.link), Pass)
  {
    var cur := CurrentVersion(fs, base);
    assert cur.Ok? ==> cur.value != "";
  }

  /** A concrete state where that happens: "v1" is in use, `uninstall ""`
      succeeds, and afterwards no version is in use because the link dangles. */
  lemma UninstallAsWrittenStrandsActive(base: string)
    ensures var fs := Fs(true, {"v1"}, {"v1"}, Some("v1"));
      && CurrentVersion(fs, base) == Ok("v1")
      && UninstallAsWritten(fs, base, "").outcome == Pass
      && "v1" !in UninstallAsWritten(fs, base, "").fs.installed
      && LinkDangles(UninstallAsWritten(fs, base, ""). fs)
  {
    var fs := Fs(true, {"v1"}, {"v1"}, Some("v1"));
    assert IsPlainName("v1");
    UninstallAsWrittenEmptyRemovesAll(fs, base);
  }

  /** The corrected uninstall refuses the empty name. */
  lemma UninstallRefusesEmpty(fs: Fs, base: string)
    ensures Uninstall(fs, base, "") == Step(fs, Fail(NotInstalled("")))
  {
  }

  // ---------------------------------------------------------------------
  // Installing

  /** Once a release and an asset are chosen the version directory is
      created, and it stays even when the transfer or unpacking fails. */
  lemma DownloadLeavesDirectory(fs: Fs, catalog: seq<Release>, version: string, transfer: Transfer, extraction: Extraction)
    requires IsPlainName(version)
    requires FindRelease(catalog, version).Some? && FindAsset(FindRelease(catalog, version).value.assets).Some?
    ensures Installed(Download(fs, Ok(catalog), version, transfer, extraction).fs, version)
  {
  }

  /** Downloading a version whose archive carries the binary and then
      activating it succeeds, and that version is then the current one. */
  lemma DownloadThenSetDefault(fs: Fs, base: string, catalog: seq<Release>, version: string, chunkLens: seq<Progress.u64>)
    requires IsPlainName(version) && !LinkDangles(fs)
    requires Download(fs, Ok(catalog), version, Received(chunkLens, false), Unpacked(true)).outcome.Pass?
    ensures var installed := Download(fs, Ok(catalog), version, Received(chunkLens, false), Unpacked(true)).fs;
      && SetDefault(installed, version).outcome.Pass?
      && CurrentVersion(SetDefault(installed, version).fs, base) == Ok(version)
  {
    var installed := Download(fs, Ok(catalog), version, Received(chunkLens, false), Unpacked(true)).fs;
    assert installed.link == fs.link;
    if fs.link.Some? {
      assert DirExists(installed, fs.link.value);
    }
    SetDefaultThenCurrent(installed, base, version);
  }

  /** The scenario of a catalog with one matching release: the install
      succeeds and the version directory holds the binary. */
  lemma ScenarioInstall(fs: Fs, chunkLens: seq<Progress.u64>)
    ensures var a := Asset("sui-v1.2.0-macos-arm64.tgz", "https://example.invalid/sui-v1.2.0-macos-arm64.tgz");
      var s := Download(fs, Ok([Release("v1.2.0", [a])]), "v1.2.0", Received(chunkLens, false), Unpacked(true));
      s.outcome == Pass && "v1.2.0" in s.fs.installed && "v1.2.0" in s.fs.hasBinary
  {
    ScenarioAssetChosen();
    assert IsPlainName("v1.2.0");
  }

  // ---------------------------------------------------------------------
  // Well-formedness is kept by every operation

  lemma OperationsKeepWellformed(fs: Fs, base: string, version: string, catalog: Result<seq<Release>>, transfer: Transfer, extraction: Extraction)
    requires Wellformed(fs)
    ensures Wellformed(SetDefault(fs, version).fs)
    ensures Wellformed(Uninstall(fs, base, version).fs)
    ensures Wellformed(Download(fs, catalog, version, transfer, extraction).fs)
  {
  }

  // ---------------------------------------------------------------------
  // Listing

  /** A version is listed exactly when `versions/` holds a directory of
      that name. */
  lemma ListInstalledMatchesDisk(fs: Fs, listing: VersionsListing)
    requires Describes(fs, listing)
    ensures ListInstalled(listing).Ok?
    ensures forall n :: n in ListInstalled(listing).value <==> n in fs.installed
  {
  }

  /** The `list` command over a readable disk: every release is shown, it
      is marked installed exactly when its directory exists, and marked
      default exactly when the link resolves to it. */
  lemma ListRemoteReflectsDisk(fs: Fs, base: string, catalog: seq<Release>, listing: VersionsListing)
    requires Describes(fs, listing)
    ensures var r := ListRemote(Ok(catalog), ListInstalled(listing), CurrentVersion(fs, base));
      && r.Ok? && |r.value| == |catalog|
      && forall i :: 0 <= i < |catalog| ==>
        && (r.value[i].isInstalled <==> catalog[i].tag in fs.installed)
        && (r.value[i].isDefault <==> CurrentVersion(fs, base) == Ok(catalog[i].tag))
  {
    ListInstalledMatchesDisk(fs, listing);
  }
}
