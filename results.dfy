/** Values shared by every part of the version manager: optional values,
    the error kinds the operations report, and their result types. */
module Results {

  datatype Option<T> = None | Some(value: T)

  /** The filesystem step that reported an I/O error. */
  datatype IoStep =
    | ReadVersionsDir    // `read_dir` on `versions/` failed
    | ReadEntry          // one directory entry could not be read
    | ReadFileType       // the type of one directory entry could not be read
    | CreateLink         // `symlink` refused: a `current` entry is still in the way
    | Unpack             // the downloaded archive could not be unpacked

  datatype Error =
    | CatalogUnavailable                 // the release list could not be fetched or decoded
    | VersionNotFound(version: string)   // no release carries this tag
    | NoCompatibleBinary(version: string)// the release has no macOS arm64 asset
    | TransferFailed                     // the asset download failed or was interrupted
    | NotInstalled(version: string)      // `versions/<version>` does not exist
    | ActiveVersion                      // refusing to uninstall the version in use
    | NoVersionInUse                     // `current` is absent or does not resolve
    | InvalidVersionLink                 // the link target has no usable final component
    | BinaryMissing(version: string)     // `versions/<version>/sui` does not exist
    | UnsupportedShell(shell: string)    // not one of fish, bash, zsh
    | Io(step: IoStep)

  datatype Result<T> = Ok(value: T) | Err(error: Error)

  /** The result of an operation that returns nothing on success. */
  datatype Outcome = Pass | Fail(error: Error)
}
