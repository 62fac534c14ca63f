/** The on-disk state of the version manager and what each operation does
    to it, as functions of the state before. The class in manager.dfy
    performs the same steps in place and is proved against these. */
module Store {
  import opened Results
  import opened Paths
  import opened Catalog
  import opened Progress

  /** What lies under the base directory.
      - `versionsDir`: whether `versions/` exists;
      - `installed`: the names of the directories in `versions/`;
      - `hasBinary`: those of them that hold a `sui` entry;
      - `link`: `None` when there is no `current` link, `Some(v)` when
        `current` is a symbolic link to `versions/<v>`; the target need not
        exist, so the link may dangle. */
  datatype Fs = Fs(versionsDir: bool, installed: set<string>, hasBinary: set<string>, link: Option<string>)

  /** Facts every real directory tree satisfies. */
  predicate Wellformed(fs: Fs)
  {
    && fs.hasBinary <= fs.installed
    && (forall n :: n in fs.installed ==> IsPlainName(n))
    && (!fs.versionsDir ==> fs.installed == {})
  }

  /** `versions/<version>` exists (`Path::exists`). */
  predicate DirExists(fs: Fs, version: string)
  {
    match Locate(version)
    case Slot(n) => n in fs.installed
    case VersionsRoot => fs.versionsDir
    case Beyond => false
  }

  /** `versions/<version>/sui` exists. For the empty version this is
      `versions/sui`, which exists exactly when a version named "sui" does. */
  predicate BinaryExists(fs: Fs, version: string)
  {
    match Locate(version)
    case Slot(n) => n in fs.hasBinary
    case VersionsRoot => "sui" in fs.installed
    case Beyond => false
  }

  /** `current.exists()`: the link is there and, followed, reaches a directory. */
  predicate LinkResolves(fs: Fs)
  {
    fs.link.Some? && DirExists(fs, fs.link.value)
  }

  /** The link is there but its target is gone. */
  predicate LinkDangles(fs: Fs)
  {
    fs.link.Some? && !DirExists(fs, fs.link.value)
  }

  /** A version in the sense of the `versions/` listing: one plain entry. */
  predicate Installed(fs: Fs, version: string)
  {
    IsPlainName(version) && version in fs.installed
  }

  /** `get_current_version`: a dangling or missing link means no version in
      use; otherwise the version is the last component of the link target. */
  function CurrentVersion(fs: Fs, base: string): (r: Result<string>)
    ensures r.Ok? <==> LinkResolves(fs)
    ensures r.Err? ==> r.error == NoVersionInUse
    ensures r.Ok? ==> r.value == (if fs.link.value == "" then "versions" else fs.link.value)
  {
    if !LinkResolves(fs) then Err(NoVersionInUse)
    else
      FileNameOfVersionDir(base, fs.link.value);
      match FileName(VersionDir(base, fs.link.value))
      case None => Err(InvalidVersionLink)
      case Some(name) => Ok(name)
  }

  /** A state together with the outcome of the operation that produced it. */
  datatype Step = Step(fs: Fs, outcome: Outcome)

  /** `set_default_version`: check the directory, remove a `current` link
      that resolves, create the new link, and only then check the binary. */
  function SetDefault(fs: Fs, version: string): (s: Step)
    ensures s.fs.versionsDir == fs.versionsDir && s.fs.installed == fs.installed && s.fs.hasBinary == fs.hasBinary
    ensures !DirExists(fs, version) ==> s == Step(fs, Fail(NotInstalled(version)))
    ensures DirExists(fs, version) && LinkDangles(fs) ==> s == Step(fs, Fail(Io(CreateLink)))
    ensures DirExists(fs, version) && !LinkDangles(fs) ==> s.fs.link == Some(version)
    ensures s.outcome.Pass? <==> DirExists(fs, version) && !LinkDangles(fs) && BinaryExists(fs, version)
    ensures s.outcome.Fail? && DirExists(fs, version) && !LinkDangles(fs) ==> s.outcome.error == BinaryMissing(version)
  {
    if !DirExists(fs, version) then Step(fs, Fail(NotInstalled(version)))
    else
      var cleared := if LinkResolves(fs) then fs.(link := None) else fs;
      if cleared.link.Some? then Step(cleared, Fail(Io(CreateLink)))
      else
        var linked := cleared.(link := Some(version));
        if BinaryExists(linked, version) then Step(linked, Pass)
        else Step(linked, Fail(BinaryMissing(version)))
  }

  /** `remove_dir_all(versions/<version>)`. */
  function RemoveVersionDir(fs: Fs, version: string): Fs
  {
    match Locate(version)
    case Slot(n) => fs.(installed := fs.installed - {n}, hasBinary := fs.hasBinary - {n})
    case VersionsRoot => fs.(versionsDir := false, installed := {}, hasBinary := {})
    case Beyond => fs
  }

  /** `uninstall_version` as written: existence of `versions/<version>`,
      then the active-version check, then recursive removal. */
  function UninstallAsWritten(fs: Fs, base: string, version: string): (s: Step)
    ensures s.fs.link == fs.link
    ensures !DirExists(fs, version) ==> s == Step(fs, Fail(NotInstalled(version)))
    ensures s.outcome.Pass? ==> !DirExists(s.fs, version)
  {
    if !DirExists(fs, version) then Step(fs, Fail(NotInstalled(version)))
    else if CurrentVersion(fs, base) == Ok(version) then Step(fs, Fail(ActiveVersion))
    else Step(RemoveVersionDir(fs, version), Pass)
  }

  /** `uninstall_version` with the version restricted to a plain entry of
      `versions/`, so that the directory removed is that one version. */
  function Uninstall(fs: Fs, base: string, version: string): (s: Step)
    ensures !Installed(fs, version) ==> s == Step(fs, Fail(NotInstalled(version)))
    ensures Installed(fs, version) && CurrentVersion(fs, base) == Ok(version) ==> s == Step(fs, Fail(ActiveVersion))
    ensures s.outcome.Pass? <==> Installed(fs, version) && CurrentVersion(fs, base) != Ok(version)
    ensures s.outcome.Pass? ==> s.fs == fs.(installed := fs.installed - {version}, hasBinary := fs.hasBinary - {version})
    ensures s.outcome.Fail? ==> s.fs == fs
  {
    if !Installed(fs, version) then Step(fs, Fail(NotInstalled(version)))
    else if CurrentVersion(fs, base) == Ok(version) then Step(fs, Fail(ActiveVersion))
    else Step(RemoveVersionDir(fs, version), Pass)
  }

  /** How the asset transfer went: the request failed, or some chunks
      arrived (their lengths) and the stream either ended or broke off. */
  datatype Transfer = Refused | Received(chunkLens: seq<u64>, interrupted: bool)

  /** What unpacking the archive did: failed, or filled the version
      directory, with or without a `sui` binary at its top. */
  datatype Extraction = UnpackFailed | Unpacked(withBinary: bool)

  /** `create_dir_all(versions/<version>)`. */
  function CreateVersionDir(fs: Fs, version: string): Fs
  {
    match Locate(version)
    case Slot(n) => fs.(versionsDir := true, installed := fs.installed + {n})
    case VersionsRoot => fs.(versionsDir := true)
    case Beyond => fs
  }

  function AddBinary(fs: Fs, version: string): Fs
  {
    match Locate(version)
    case Slot(n) => fs.(hasBinary := fs.hasBinary + {n})
    case _ => fs
  }

  /** `download_version`: pick the release and the asset, create the
      version directory, transfer, unpack. Nothing is rolled back: a
      failure after the directory exists leaves it in place. */
  function Download(fs: Fs, catalog: Result<seq<Release>>, version: string, transfer: Transfer, extraction: Extraction): (s: Step)
    ensures s.fs.link == fs.link
    ensures fs.installed <= s.fs.installed && fs.hasBinary <= s.fs.hasBinary
    ensures s.fs.installed <= fs.installed + {version} && s.fs.hasBinary <= fs.hasBinary + {version}
    ensures catalog.Err? ==> s == Step(fs, Fail(CatalogUnavailable))
    ensures catalog.Ok? && FindRelease(catalog.value, version).None? ==> s == Step(fs, Fail(VersionNotFound(version)))
    ensures catalog.Ok? && FindRelease(catalog.value, version).Some? && FindAsset(FindRelease(catalog.value, version).value.assets).None?
      ==> s == Step(fs, Fail(NoCompatibleBinary(version)))
    ensures s.outcome.Pass? <==>
      && catalog.Ok? && FindRelease(catalog.value, version).Some?
      && FindAsset(FindRelease(catalog.value, version).value.assets).Some?
      && transfer.Received? && !transfer.interrupted && extraction.Unpacked?
    ensures s.outcome.Pass? && IsPlainName(version) ==> version in s.fs.installed
    ensures s.outcome.Pass? && IsPlainName(version) ==> (version in s.fs.hasBinary <==> version in fs.hasBinary || extraction.withBinary)
    ensures s.outcome.Fail? && catalog.Ok? && FindRelease(catalog.value, version).Some?
      && FindAsset(FindRelease(catalog.value, version).value.assets).Some?
      ==> s.fs == CreateVersionDir(fs, version)
  {
    if catalog.Err? then Step(fs, Fail(CatalogUnavailable))
    else match FindRelease(catalog.value, version)
      case None => Step(fs, Fail(VersionNotFound(version)))
      case Some(release) =>
        match FindAsset(release.assets)
        case None => Step(fs, Fail(NoCompatibleBinary(version)))
        case Some(_) =>
          var made := CreateVersionDir(fs, version);
          if transfer.Refused? || transfer.interrupted then Step(made, Fail(TransferFailed))
          else match extraction
            case UnpackFailed => Step(made, Fail(Io(Unpack)))
            case Unpacked(withBinary) => Step(if withBinary then AddBinary(made, version) else made, Pass)
  }

  // ---------------------------------------------------------------------
  // The listing of `versions/`

  /** A file name as the OS gives it; only some are valid UTF-8. */
  datatype OsName = Utf8(text: string) | NotUtf8(bytes: seq<bv8>)

  /** `DirEntry::file_type`, which does not follow symbolic links. */
  datatype FileKind = Directory | RegularFile | Symlink

  /** One item of `read_dir`: unreadable, or a name with its type (`None`
      when the type could not be read). */
  datatype EntryRead = EntryFailed | Entry(name: OsName, kind: Option<FileKind>)

  /** `versions/` as `list_installed_versions` finds it. */
  datatype VersionsListing = Absent | Unreadable | Entries(entries: seq<EntryRead>)

  predicate Readable(e: EntryRead)
  {
    e.Entry? && e.kind.Some?
  }

  /** The entry is a directory whose name is the given text. */
  predicate IsVersionEntry(e: EntryRead, n: string)
  {
    e == Entry(Utf8(n), Some(Directory))
  }

  predicate ListsDirectory(entries: seq<EntryRead>, n: string)
  {
    exists i :: 0 <= i < |entries| && IsVersionEntry(entries[i], n)
  }

  /** What one readable entry contributes to the list. */
  function Kept(e: EntryRead): seq<string>
  {
    if e.Entry? && e.kind == Some(Directory) && e.name.Utf8? then [e.name.text] else []
  }

  function EntryError(e: EntryRead): Error
  {
    if e.EntryFailed? then Io(ReadEntry) else Io(ReadFileType)
  }

  /** The loop over the entries: the first unreadable entry aborts it;
      otherwise the UTF-8 named directories are kept in listing order. */
  function Collect(entries: seq<EntryRead>): (r: Result<seq<string>>)
    ensures r.Ok? <==> forall i :: 0 <= i < |entries| ==> Readable(entries[i])
    ensures r.Ok? ==> forall n :: n in r.value <==> ListsDirectory(entries, n)
  {
    if entries == [] then Ok([])
    else if !Readable(entries[0]) then Err(EntryError(entries[0]))
    else
      var rest := Collect(entries[1..]);
      assert forall i :: 1 <= i < |entries| ==> entries[i] == entries[1..][i - 1];
      if rest.Err? then rest
      else
        var r := Kept(entries[0]) + rest.value;
        assert forall n :: ListsDirectory(entries, n) <==> IsVersionEntry(entries[0], n) || ListsDirectory(entries[1..], n) by {
          forall n | ListsDirectory(entries, n) && !IsVersionEntry(entries[0], n)
            ensures ListsDirectory(entries[1..], n)
          {
            var i :| 0 <= i < |entries| && IsVersionEntry(entries[i], n);
            assert entries[1..][i - 1] == entries[i];
          }
        }
        Ok(r)
  }

  /** `list_installed_versions`. */
  function ListInstalled(listing: VersionsListing): (r: Result<seq<string>>)
    ensures listing.Absent? ==> r == Ok([])
    ensures listing.Unreadable? ==> r == Err(Io(ReadVersionsDir))
    ensures listing.Entries? ==> r == Collect(listing.entries)
  {
    match listing
    case Absent => Ok([])
    case Unreadable => Err(Io(ReadVersionsDir))
    case Entries(entries) => Collect(entries)
  }

  /** The listing is a faithful, fully readable view of `fs`. */
  ghost predicate Describes(fs: Fs, listing: VersionsListing)
  {
    if !fs.versionsDir then listing.Absent? && fs.installed == {}
    else
      && listing.Entries?
      && (forall i :: 0 <= i < |listing.entries| ==> Readable(listing.entries[i]))
      && (forall n :: n in fs.installed <==> ListsDirectory(listing.entries, n))
  }
}
