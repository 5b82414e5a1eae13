/** The files the publishers read, as a map from path to content. */
module Files {
  import opened Wrappers
  import opened Platform
  import opened Play

  /**
   * The regular files that exist and their text; `releaseNotesJson` gives,
   * for the files whose text parses as a JSON array of localized texts, the
   * parsed entries in file order.
   */
  datatype FileSystem = FileSystem(files: map<Path, string>, releaseNotesJson: map<Path, seq<LocalizedText>>)

  /** `path.toFile().isFile()`. */
  predicate IsFile(fs: FileSystem, path: Path) {
    path in fs.files
  }

  /** `new String(Files.readAllBytes(path))`. */
  function ReadText(fs: FileSystem, path: Path): (r: Result<string, Exception>)
    ensures r.Success? <==> IsFile(fs, path)
    ensures r.Failure? ==> r.error == FileNotFound(path)
  {
    if path in fs.files then Success(fs.files[path]) else Failure(FileNotFound(path))
  }

  /** Parses a file as a JSON array of `LocalizedText`. */
  function ReadReleaseNotesJson(fs: FileSystem, path: Path): (r: Result<seq<LocalizedText>, Exception>)
    ensures r.Success? <==> IsFile(fs, path) && path in fs.releaseNotesJson
    ensures r.Failure? ==> r.error == FileNotFound(path) || r.error == MalformedJson(path)
  {
    if path !in fs.files then Failure(FileNotFound(path))
    else if path in fs.releaseNotesJson then Success(fs.releaseNotesJson[path])
    else Failure(MalformedJson(path))
  }
}
