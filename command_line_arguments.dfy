/** The command-line arguments the publishers read. */
module Arguments {
  import opened Wrappers
  import opened FileTypes
  import opened TrackStatuses

  /**
   * The options of `CommandLineArguments.java` (`-key`, `-name`,
   * `-packageName`, `-file`, `-track`, `-notes`, `-notesFile`,
   * `-mappingFile`, `-countries`), an absent option being `None`, together
   * with the three values `ApkPublisher` reads through getters that
   * `CommandLineArguments.java` does not declare: the version name, the file
   * type and the track status.
   */
  datatype CommandLineArguments = CommandLineArguments(
    jsonKeyPath: string,
    appName: string,
    packageName: string,
    file: string,
    trackName: string,
    notes: Option<string>,
    notesPath: Option<string>,
    mappingFile: Option<string>,
    countries: Option<string>,
    versionName: string,
    fileType: FileType,
    status: TrackStatus)
}
