/** What the publishers take from the Java platform: file-system paths and exceptions. */
module Platform {
  import opened Wrappers

  /**
   * A file-system path, kept symbolic: a path is identified by how it was
   * formed. Normalisation is not modelled.
   */
  datatype Path =
    | Given(text: string)                  // a path string as the user wrote it
    | ParentOf(child: Path)                // `child.getParent()`
    | Resolved(base: Path, name: string)   // `base.resolve(name)`

  /** The exceptions the publishers throw or let through. */
  datatype Exception =
    | ServiceException(message: string)                       // thrown by a call to the publishing API
    | IOException(message: string, cause: Option<Exception>)   // `new IOException(message, cause)`
    | FileNotFound(file: Path)                                  // reading a file that is not a regular file
    | MalformedJson(file: Path)                                 // a file whose text does not parse
    | NullPointerException(dereferenced: string)                // a `null` field dereferenced
    | RuntimeException(message: string)                         // `new RuntimeException(message)`
}
