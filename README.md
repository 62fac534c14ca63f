# suivm version lifecycle, modelled in Dafny

`suivm` manages side-by-side installations of the `sui` toolchain under a
base directory (`~/.suivm`):

- Each installed version is a directory `versions/<tag>`.
- A symbolic link `current` names the version in use.
- Commands list the remote releases, install one, uninstall one, switch the
  link, and print a PATH line for the user's shell.

This project models the `SuiVersionManager` of `src/version_manager.rs`.
It proves what each command does to the directory tree and how the commands
relate to one another.

Layout:

- `results.dfy` (`Results`): option, result and error types.
- `paths.dfy` (`Paths`): `Path::join` and `Path::file_name` on '/'-separated
  strings, and where `versions/<version>` lands for a version string.
- `catalog.dfy` (`Catalog`): releases and assets, the first-match selection
  of `download_version`, and the join behind `list_remote_versions`.
- `shell.dfy` (`Shell`): `get_shell_config`.
- `progress.dfy` (`Progress`): the saturating 64-bit byte counter of the
  download loop.
- `store.dfy` (`Store`): the disk as a value `Fs`, and each command as a
  function from the disk before to the disk after plus an outcome.
  - `Fs` has four fields: whether `versions/` exists, the version
    directories, those that hold `sui`, and the `current` link.
  - The link may dangle.
  - The listing of `versions/` is also here: entries, their types, names
    that may not be UTF-8, and read errors.
- `lifecycle.dfy` (`Lifecycle`): lemmas that relate the commands.
- `folding.dfy` (`Folding`): uninstalling on a volume that ignores letter
  case, the macOS default.
- `manager.dfy` (`Manager`): the class `SuiVersionManager`.
  - Its fields are the base directory, the version directories, the binaries
    and the link.
  - Each method performs the Rust steps in order, changing the fields as it
    goes.
  - Each method is proved to end in the state and outcome that `Store`
    prescribes.

Behaviour kept as the code has it:

- `Path::exists` follows symbolic links. A dangling `current` therefore means
  "no version in use", and `set_default_version` does not remove it. Creating
  the new link then fails.
- `set_default_version` replaces the link before it checks for the binary. A
  failed activation can therefore leave the link moved.
- Joining the empty string onto `versions` gives `versions/` itself. This
  matters for the finding below.
- A "directory" in the listing is what `DirEntry::file_type` reports, which
  does not follow links. Names that are not valid UTF-8 are skipped.
- Asset selection always asks for `macos` and `arm64`, whatever the host
  architecture.

Two further consequences of the code:

- A dangling link blocks activation; it is never replaced.
- The installed list comes in the order `read_dir` yields it. It is a
  sequence, not a set.

## Model

| member | source | states |
|---|---|---|
| `Paths.FileName` | src/version_manager.rs:189-192 | the name read back from a link target is a single plain component (non-empty, not `.` or `..`, no `/`), or there is none |
| `Paths.ComponentsOfJoin` | src/version_manager.rs:254 | joining a relative name onto a directory appends the name's components to the directory's |
| `Paths.FileNameOfVersionDir` | src/version_manager.rs:182-194 | the last component of `<base>/versions/<v>` is `v` for a plain name, and `versions` for the empty string |
| `Paths.LocateLandsAt` | src/version_manager.rs:254 | for a slot, `<base>/versions/<v>` has the components of `versions/` plus `v`; for the empty string it has exactly those of `versions/`; so does `.`, which the model classes with the names it does not follow (see Left out) |
| `Store.CurrentVersion` | src/version_manager.rs:182-195 | a version is reported iff the link exists and resolves; it is the link's version name (`versions` for an empty one); otherwise the error is "no version in use" |
| `Manager.SuiVersionManager.GetCurrentVersion` | src/version_manager.rs:182-195 | reads the link and its last component; agrees with `CurrentVersion` on the object's disk |
| `Store.SetDefault` | src/version_manager.rs:253-284 | only the link ever changes; a missing directory fails with no change; a dangling link blocks creation with no change; otherwise the link names `v` afterwards; success iff the directory exists, the link does not dangle, and the binary exists |
| `Manager.SuiVersionManager.SetDefaultVersion` | src/version_manager.rs:253-284 | the step-by-step link swap ends in the state and outcome of `SetDefault`; on success the current version is `v`; on a well-formed tree, success iff `versions/<v>/sui` exists and the link does not dangle |
| `Lifecycle.SetDefaultThenCurrent` | src/version_manager.rs:265-272 | after a successful activation of `v`, reading the current version gives `v` |
| `Lifecycle.SetDefaultMovesLinkWithoutBinary` | src/version_manager.rs:264-281 | activating an installed version without `sui` fails with "binary missing", yet that version is then current |
| `Lifecycle.SetDefaultBlockedByDanglingLink` | src/version_manager.rs:265-272 | with a dangling `current`, activation fails with an I/O error and changes nothing, while no version reads as in use |
| `Lifecycle.SetDefaultTwice` | src/version_manager.rs:265-272 | activating twice yields the same state and outcome as once; the second call also succeeds |
| `Store.UninstallAsWritten` | src/version_manager.rs:160-179 | the code as written: the link is never touched; a missing directory fails with no change; success leaves `versions/<v>` absent |
| `Store.Uninstall` | src/version_manager.rs:160-179 | a non-installed version fails with no change; the version in use is refused with no change; success iff installed and not in use; success removes exactly that version, with the link and other versions untouched |
| `Manager.SuiVersionManager.UninstallVersion` | src/version_manager.rs:160-179 | the check-then-remove steps end in the state and outcome of `Uninstall`; the link and the other versions are unchanged |
| `Lifecycle.UninstallRefusesActive` | src/version_manager.rs:168-173 | uninstalling the version the link names fails as "active", and its directory stays |
| `Lifecycle.UninstallWithoutActive` | src/version_manager.rs:168-176 | with no link or a dangling one the active check is skipped: the version is removed and the link is left as it was |
| `Lifecycle.UninstallKeepsActive` | src/version_manager.rs:163-176 | if `current` resolves before an uninstall, it resolves afterwards to the same version |
| `Lifecycle.UninstallAgreesOnPlainNames` | src/version_manager.rs:161-176 | on plain version names, the corrected uninstall is the code as written |
| `Lifecycle.UninstallAsWrittenEmptyRemovesAll` | src/version_manager.rs:161-176 | as written, `uninstall("")` succeeds whenever `versions/` exists and removes every installed version |
| `Lifecycle.UninstallAsWrittenStrandsActive` | src/version_manager.rs:160-179 | a concrete disk where the version in use is deleted by `uninstall("")`, leaving the link dangling |
| `Lifecycle.UninstallRefusesEmpty` | src/version_manager.rs:163-166 | the corrected uninstall reports the empty name as not installed and changes nothing |
| `Catalog.ContainsIffOccurs` | src/version_manager.rs:92 | `contains` holds iff the pattern occurs at some position of the name |
| `Catalog.FindRelease` | src/version_manager.rs:83-86 | nothing is found iff no tag equals the version exactly; otherwise the result is the first release with that tag |
| `Catalog.FindAsset` | src/version_manager.rs:89-93 | nothing is found iff no asset name contains both `macos` and `arm64`; otherwise the result is the first such asset |
| `Catalog.ScenarioAssetChosen` | src/version_manager.rs:83-93 | for a catalog holding only `v1.2.0` with asset `sui-v1.2.0-macos-arm64.tgz`, that release and that asset are chosen |
| `Store.Download` | src/version_manager.rs:72-145 | never touches the link; adds nothing but `versions/<v>` and never removes a version or binary; a fetch failure, missing tag or missing asset fails before any directory is created; a later failure leaves exactly the created directory; success iff release, asset, complete transfer and unpacking all succeed; a success installs `v`, with the binary iff it was there or the archive holds `sui` |
| `Manager.SuiVersionManager.DownloadVersion` | src/version_manager.rs:72-145 | the selection, directory creation, transfer loop and unpacking end in the state and outcome of `Download` |
| `Lifecycle.DownloadLeavesDirectory` | src/version_manager.rs:95-97 | once a release and asset are chosen, `versions/<v>` exists afterwards even if the transfer or unpacking fails |
| `Lifecycle.DownloadThenSetDefault` | src/version_manager.rs:72-145 | installing a version whose archive holds `sui`, then activating it, succeeds and makes it current |
| `Lifecycle.ScenarioInstall` | src/version_manager.rs:83-137 | the single-release scenario installs `v1.2.0` with its binary |
| `Progress.TrackProgress` | src/version_manager.rs:120-128 | after the loop the counter is the saturating sum of the chunk lengths, i.e. the true byte count capped at 2^64-1; one progress position per chunk; the positions never decrease |
| `Progress.SaturatingTotalIsCappedSum` | src/version_manager.rs:126 | folding `saturating_add` over the chunks equals min(exact sum, 2^64-1) |
| `Progress.SaturatingTotalMonotone` | src/version_manager.rs:123-128 | the counter after a prefix of the chunks is never above the counter after all of them |
| `Store.Collect` | src/version_manager.rs:203-210 | the loop succeeds iff every entry and its type can be read; the kept names are exactly those of directory entries with UTF-8 names |
| `Store.ListInstalled` | src/version_manager.rs:198-214 | a missing `versions/` gives an empty list; an unreadable one gives an I/O error; otherwise the result is that of the entry loop |
| `Manager.SuiVersionManager.ListInstalledVersions` | src/version_manager.rs:198-214 | the push loop returns what `ListInstalled` prescribes, so a name is listed iff a directory entry carries it; on a listing of the object's own disk, it succeeds and lists exactly the object's installed versions |
| `Lifecycle.ListInstalledMatchesDisk` | src/version_manager.rs:198-214 | on a readable disk, a version is listed iff `versions/<v>` is a directory |
| `Catalog.Annotate` | src/version_manager.rs:59-67 | one row per release, in release order; installed iff the tag is in the installed list; default iff a current version exists and equals the tag |
| `Catalog.ListRemote` | src/version_manager.rs:43-70 | a catalog error comes first, then a listing error is passed on; otherwise every release gets a row; a failed current-version read only means that no row is default |
| `Catalog.AtMostOneDefault` | src/version_manager.rs:64 | with distinct tags, at most one row is marked default |
| `Manager.SuiVersionManager.ListRemoteVersions` | src/version_manager.rs:43-70 | the method equals `ListRemote` over its own listing and current version; a row is default iff the link resolves to that tag; on a listing of the object's own disk, every release gets a row, installed iff its tag is among the object's versions |
| `Lifecycle.ListRemoteReflectsDisk` | src/version_manager.rs:54-67 | on a readable disk every release is listed; installed iff its directory exists; default iff it is the current version |
| `Shell.ShellConfig` | src/version_manager.rs:216-226 | fails iff the lower-cased name is none of fish, bash, zsh, and the error names the shell as given; fish yields `set -gx PATH <base>/current/bin $PATH`; bash and zsh yield `export PATH="<base>/current/bin:$PATH"` |
| `Shell.ShellConfigIgnoresCase` | src/version_manager.rs:219 | a name and its lower-cased form are accepted alike and give the same line |
| `Shell.BashAndZshAgree` | src/version_manager.rs:220-221 | bash and zsh (in any case) give the same POSIX line; fish gives its own |
| `Shell.BinDirUnderCurrent` | src/version_manager.rs:217 | the directory put on PATH is `<base>/current/bin`: its components are the base's followed by `current`, `bin` |
| `Shell.ScenarioFish` | src/version_manager.rs:220 | with base `/home/u/.suivm`, fish yields `set -gx PATH /home/u/.suivm/current/bin $PATH` |
| `Shell.ScenarioBash` | src/version_manager.rs:221 | with base `/home/u/.suivm`, bash yields `export PATH="/home/u/.suivm/current/bin:$PATH"` |
| `Shell.UnsupportedRejected` | src/version_manager.rs:222 | `tcsh` and the empty name are rejected as unsupported shells |
| `Folding.CurrentFolded` | src/version_manager.rs:182-195 | on a case-insensitive volume the link resolves when an installed name matches its target up to case, and reads back as the link spells it |
| `Folding.UninstallFoldingAsWritten` | src/version_manager.rs:160-179 | the code on a case-insensitive volume: the existence check ignores case, the active check is exact; success iff `versions/<v>` exists (`versions/` itself for `""`, otherwise some installed name matching up to case) and the current version is not spelled exactly `v`; success leaves `versions/<v>` absent |
| `Folding.UninstallFoldingAsWrittenOnEmpty` | src/version_manager.rs:161-176 | on `""` letter case plays no part: the code on such a volume behaves as `Store.UninstallAsWritten` and removes `versions/` |
| `Folding.UninstallFolding` | src/version_manager.rs:160-179 | the corrected uninstall on such a volume: only plain names are accepted, and the active check ignores case; success iff some installed name matches `v` up to case and the current version does not; failure changes nothing |
| `Folding.UninstallFoldingAsWrittenRemovesActive` | src/version_manager.rs:164-176 | with `v1` installed and in use, `uninstall V1` succeeds, removes `v1`, and leaves no version in use |
| `Folding.UninstallFoldingKeepsActive` | src/version_manager.rs:168-176 | with the corrected check, whatever spelling is uninstalled, the version in use stays in use under the same name |
| `Manager.SuiVersionManager.constructor` | src/version_manager.rs:28-41 | `versions/` exists afterwards; the versions and link already on disk are kept |

## Findings

| source | as written | input that shows it | evidently intended | confidence | as-written member | corrected member |
|---|---|---|---|---|---|---|
| src/version_manager.rs:160-179 | Joining `""` onto `versions` yields `versions/`, which exists, so the existence check passes. The active check compares against a current version that is never `""`. `remove_dir_all` then deletes `versions/` with every version in it, the active one included. | `suivm uninstall ""` while `v1` is installed and in use | only a single installed version directory is removed, and never the one in use | medium; not executed | `Lifecycle.UninstallAsWrittenStrandsActive` | `Lifecycle.UninstallKeepsActive` |
| src/version_manager.rs:164-176 | The program runs only on macOS (src/main.rs:55-58), whose volumes ignore letter case by default. So `versions/V1` exists whenever `versions/v1` does, but the active check compares the names exactly. | `suivm uninstall V1` while `v1` is installed and in use | the version in use is refused under any spelling | medium; not executed | `Folding.UninstallFoldingAsWrittenRemovesActive` | `Folding.UninstallFoldingKeepsActive` |

- `Store.UninstallAsWritten` models the code as written.
- `Lifecycle.UninstallAsWrittenEmptyRemovesAll` proves the wipe for every disk on which `versions/` exists.
- `Store.Uninstall` is the corrected definition. It accepts only a plain entry name, and the class's `UninstallVersion` uses it.
- `Lifecycle.UninstallAgreesOnPlainNames` proves that the two definitions agree on every plain name.
- The second row is shown on a separate model of a case-insensitive volume, in `Folding`:
  - `Folding.UninstallFoldingAsWritten` models the code as written.
  - `Folding.UninstallFolding` is the corrected definition: its active check ignores case.

## Left out

- Manager.SuiVersionManager.UninstallVersion: performs the corrected uninstall (see Findings). On the empty string it refuses instead of deleting `versions/`.
- Network access: fetching and JSON-decoding the release list, and the `User-Agent` header. The catalog is an input `Result<seq<Release>>`, and any fetch or decode failure becomes one error.
- The streaming download:
  - The asset request and the chunk stream are an input `Transfer`: refused, or a list of chunk lengths plus whether the stream broke off.
  - File writes and the progress-bar display are not modelled. Only the counter and the positions it reports are.
- Archive extraction (gzip and tar, a foreign library). It is an input outcome: failed, or unpacked with or without `sui` at the top of the version directory.
- Removing the archive file after unpacking, and the archive's file name.
- I/O failures that the model cannot derive from its own state are not modelled: permissions, a full disk, failures of `create_dir_all`, `File::create`, `remove_dir_all`, `remove_file`, and `symlink` for reasons other than a dangling `current`. The model's only I/O errors are an unreadable `versions/`, an unreadable entry or entry type, the blocked link creation, and a failed unpacking.
- `suggest_shell_config` and all printing. Its three `get_shell_config` calls cannot fail; `Shell.BashAndZshAgree` shows this.
- `new()`'s home-directory lookup. The base directory is a constructor parameter.
- The Windows `symlink_dir` branch. The model has one link-creation step.
- `src/main.rs` (argument parsing, dispatch and printing) and `src/utils.rs` (OS and architecture constants) are not part of this model.
- Version strings other than the empty string and plain names: `.`, `..`, names containing `/`, and absolute paths. The real program would act on whatever path these name; the model treats them as not installed.
- Apart from `Folding`, the disk is treated as case-sensitive, whereas macOS volumes ignore case by default. Besides the uninstall finding, this hides a second consequence: after `use V1` with `v1` installed, the current version reads back as `V1`, so `list` marks no release as default (src/version_manager.rs:64). The class and the `Store` functions compare names exactly.
- A version string of `.` names `versions/` itself, as the empty string does (`Paths.LocateLandsAt`). With either name, the code passes both checks and `remove_dir_all` deletes every installed version. For `.` the final removal of the directory itself then fails with an I/O error. The model treats `.` as not installed.
- A `current` link made by other means, pointing somewhere other than `versions/<v>`, cannot be represented.
- The error branch for a link whose last component is missing or not UTF-8. It is kept in `Store.CurrentVersion`, but no link the model can represent reaches it.
- Folding.UninstallFoldingAsWritten: folds ASCII letters only, through `Shell.Lower`. A macOS volume also matches other letters up to case (`É1` and `é1` name one directory). The model treats those as distinct names, so it shows the finding only for names that differ in ASCII letter case.
- Shell.Lower: lowers ASCII letters only, where Rust lowers all of Unicode. For deciding whether a name is `fish`, `bash` or `zsh` this is exact: no other character lowers to one of their letters.
