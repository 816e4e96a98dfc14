/** The exceptions `Presso.zip_dir` and `Presso.unzip` let escape, as values. */
module Failures {
  import opened Paths

  datatype Error =
    | IncompatibleVersion(message: string) // PressoError raised by the version gate
    | AlreadyExists(path: Path)            // Errno::EEXIST from Dir.mkdir
    | NoParentDirectory(path: Path)        // Errno::ENOENT / ENOTDIR: the parent is missing or not a directory
    | IsADirectory(path: Path)             // Errno::EISDIR from opening a directory for writing

  datatype Result<T> = Ok(value: T) | Err(error: Error)
}
