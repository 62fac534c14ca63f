/** `SuiVersionManager`: the base directory and the filesystem beneath it,
    changed step by step by the commands. Each method performs the steps
    of its Rust counterpart on the fields and is proved to end in the state
    and outcome that the functions of `Store` prescribe. */
module Manager {
  import opened Results
  import opened Paths
  import opened Catalog
  import opened Progress
  import opened Store

  class SuiVersionManager {
    const baseDir: string
    var versionsDir: bool
    var installed: set<string>
    var hasBinary: set<string>
    var current: Option<string>

    /** The disk as a value. */
    function Disk(): Fs
      reads this
    {
      Fs(versionsDir, installed, hasBinary, current)
    }

    /** The facts every real directory tree satisfies: a binary lies in an
        installed version, and there are no versions without `versions/`.
        `SetDefaultVersion` relies on it to decide success by the binary alone. */
    ghost predicate Valid()
      reads this
    {
      Wellformed(Disk())
    }

    /** `new`: the base directory and `versions/` are created if missing;
        whatever versions and link were there already are kept. */
    constructor (baseDir: string, disk: Fs)
      requires Wellformed(disk)
      ensures Valid()
      ensures this.baseDir == baseDir
      ensures Disk() == disk.(versionsDir := true)
    {
      this.baseDir := baseDir;
      versionsDir := true;
      installed := disk.installed;
      hasBinary := disk.hasBinary;
      current := disk.link;
    }

    /** `get_current_version`. */
    method GetCurrentVersion() returns (r: Result<string>)
      ensures r == CurrentVersion(Disk(), baseDir)
      ensures r.Ok? <==> LinkResolves(Disk())
      ensures r.Ok? && current.value != "" ==> r.value == current.value
    {
      if !(current.Some? && DirExists(Disk(), current.value)) {
        return Err(NoVersionInUse);
      }
      var target := VersionDir(baseDir, current.value);
      var name := FileName(target);
      if name.None? {
        return Err(InvalidVersionLink);
      }
      r := Ok(name.value);
    }

    /** `set_default_version`. */
    method SetDefaultVersion(version: string) returns (r: Outcome)
      requires Valid()
      modifies this
      ensures Valid()
      ensures Step(Disk(), r) == SetDefault(old(Disk()), version)
      ensures installed == old(installed) && hasBinary == old(hasBinary) && versionsDir == old(versionsDir)
      ensures r.Pass? && version != "" ==> CurrentVersion(Disk(), baseDir) == Ok(version)
      ensures r.Pass? <==> BinaryExists(old(Disk()), version) && !LinkDangles(old(Disk()))
    {
      if !DirExists(Disk(), version) {
        return Fail(NotInstalled(version));
      }
      if LinkResolves(Disk()) {
        current := None;
      }
      if current.Some? {
        return Fail(Io(CreateLink));
      }
      current := Some(version);
      if !BinaryExists(Disk(), version) {
        return Fail(BinaryMissing(version));
      }
      r := Pass;
    }

    /** `uninstall_version`, refusing a version string that is not one
        entry of `versions/`. */
    method UninstallVersion(version: string) returns (r: Outcome)
      requires Valid()
      modifies this
      ensures Valid()
      ensures Step(Disk(), r) == Uninstall(old(Disk()), baseDir, version)
      ensures current == old(current) && versionsDir == old(versionsDir)
      ensures r.Pass? ==> installed == old(installed) - {version}
      ensures r.Fail? ==> installed == old(installed)
    {
      if !(IsPlainName(version) && version in installed) {
        return Fail(NotInstalled(version));
      }
      var active := GetCurrentVersion();
      if active == Ok(version) {
        return Fail(ActiveVersion);
      }
      installed := installed - {version};
      hasBinary := hasBinary - {version};
      r := Pass;
    }

    /** `download_version`, with the catalog, the transfer and the unpacking
        as given outcomes. */
    method DownloadVersion(catalog: Result<seq<Release>>, version: string, transfer: Transfer, extraction: Extraction)
      returns (r: Outcome)
      requires Valid()
      modifies this
      ensures Valid()
      ensures Step(Disk(), r) == Download(old(Disk()), catalog, version, transfer, extraction)
      ensures current == old(current) && old(installed) <= installed
    {
      if catalog.Err? {
        return Fail(CatalogUnavailable);
      }
      var release := FindRelease(catalog.value, version);
      if release.None? {
        return Fail(VersionNotFound(version));
      }
      var asset := FindAsset(release.value.assets);
      if asset.None? {
        return Fail(NoCompatibleBinary(version));
      }
      match Locate(version) {
        case Slot(n) =>
          versionsDir := true;
          installed := installed + {n};
        case VersionsRoot =>
          versionsDir := true;
        case Beyond =>
      }
      if transfer.Refused? {
        return Fail(TransferFailed);
      }
      var downloaded, positions := TrackProgress(transfer.chunkLens);
      if transfer.interrupted {
        return Fail(TransferFailed);
      }
      if extraction.UnpackFailed? {
        return Fail(Io(Unpack));
      }
      if extraction.withBinary && Locate(version).Slot? {
        hasBinary := hasBinary + {version};
      }
      r := Pass;
    }

    /** `list_installed_versions`: the loop over the entries of `versions/`. */
    method ListInstalledVersions(listing: VersionsListing) returns (r: Result<seq<string>>)
      ensures r == ListInstalled(listing)
      ensures r.Ok? && listing.Entries? ==> forall n :: n in r.value <==> ListsDirectory(listing.entries, n)
      ensures Describes(Disk(), listing) ==> r.Ok? && forall n :: n in r.value <==> n in installed
    {
      if listing.Absent? {
        return Ok([]);
      }
      if listing.Unreadable? {
        return Err(Io(ReadVersionsDir));
      }
      var entries := listing.entries;
      var versions: seq<string> := [];
      var i := 0;
      assert entries[i..] == entries;
      GlueNothing(Collect(entries));
      while i < |entries|
        invariant 0 <= i <= |entries|
        invariant forall k :: 0 <= k < i ==> Readable(entries[k])
        invariant Collect(entries) == Glue(versions, Collect(entries[i..]))
      {
        var e := entries[i];
        CollectStep(entries, i);
        if e.EntryFailed? {
          return Err(Io(ReadEntry));
        }
        if e.kind.None? {
          return Err(Io(ReadFileType));
        }
        GlueTwice(versions, Kept(e), Collect(entries[i + 1..]));
        if e.kind.value == Directory && e.name.Utf8? {
          versions := versions + [e.name.text];
        } else {
          assert versions + Kept(e) == versions;
        }
        i := i + 1;
      }
      assert entries[i..] == [];
      assert versions + [] == versions;
      r := Ok(versions);
    }

    /** `list_remote_versions`, with the fetched catalog and the listing of
        `versions/` as inputs. */
    method ListRemoteVersions(catalog: Result<seq<Release>>, listing: VersionsListing) returns (r: Result<seq<RemoteVersion>>)
      ensures r == ListRemote(catalog, ListInstalled(listing), CurrentVersion(Disk(), baseDir))
      ensures r.Ok? ==> forall i :: 0 <= i < |r.value| ==>
        (r.value[i].isDefault <==> LinkResolves(Disk()) && CurrentVersion(Disk(), baseDir).value == catalog.value[i].tag)
      ensures Describes(Disk(), listing) && catalog.Ok? ==>
        && r.Ok? && |r.value| == |catalog.value|
        && forall i :: 0 <= i < |r.value| ==> (r.value[i].isInstalled <==> catalog.value[i].tag in installed)
    {
      if catalog.Err? {
        return Err(CatalogUnavailable);
      }
      var versions := ListInstalledVersions(listing);
      if versions.Err? {
        return Err(versions.error);
      }
      var active := GetCurrentVersion();
      r := Ok(Annotate(catalog.value, versions.value, if active.Ok? then Some(active.value) else None));
    }
  }

  /** One turn of the listing loop, seen on the recursive definition. */
  lemma CollectStep(entries: seq<EntryRead>, i: nat)
    requires i < |entries|
    ensures !Readable(entries[i]) ==> Collect(entries[i..]) == Err(EntryError(entries[i]))
    ensures Readable(entries[i]) ==> Collect(entries[i..]) == Glue(Kept(entries[i]), Collect(entries[i + 1..]))
  {
    assert entries[i..][0] == entries[i];
    assert entries[i..][1..] == entries[i + 1..];
  }

  lemma GlueNothing(rest: Result<seq<string>>)
    ensures Glue([], rest) == rest
  {
    if rest.Ok? {
      assert [] + rest.value == rest.value;
    }
  }

  lemma GlueTwice(a: seq<string>, b: seq<string>, rest: Result<seq<string>>)
    ensures Glue(a, Glue(b, rest)) == Glue(a + b, rest)
  {
    if rest.Ok? {
      assert a + (b + rest.value) == (a + b) + rest.value;
    }
  }

  /** Puts the entries kept so far in front of what the rest of the loop yields. */
  function Glue(kept: seq<string>, rest: Result<seq<string>>): Result<seq<string>>
  {
    if rest.Ok? then Ok(kept + rest.value) else rest
  }
}
