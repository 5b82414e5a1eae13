/** The batch configuration file, as a record. */
module Configurations {
  import opened Wrappers
  import opened FileTypes
  import opened TrackStatuses

  /**
   * The fields declared in `Configuration.java` together with the five that
   * the batch publisher reads but that file does not declare
   * (`appFilePattern`, `packageNamePattern`, `fileType`, `locales`,
   * `status`). `baseFolder` and `mappingFilePattern` may be `null` in the
   * source, so they are optional here.
   */
  datatype Configuration = Configuration(
    track: string,
    flavors: seq<string>,
    version: string,
    releaseNotesByFlavor: map<string, string>,
    releaseNotes: string,
    baseFolder: Option<string>,
    apkFilePattern: string,
    mappingFilePattern: Option<string>,
    countries: seq<string>,
    countriesByFlavor: map<string, seq<string>>,
    unattended: bool,
    abortOnError: bool,
    appFilePattern: string,
    packageNamePattern: string,
    fileType: FileType,
    locales: map<string, seq<string>>,
    status: TrackStatus)

  const DefaultApkFilePattern := "de.{flavor}.app-{version}.apk"
  const DefaultMappingFilePattern := "de.{flavor}.app-{version}-mapping.txt"

  /**
   * A configuration whose declared fields keep their initialisers, as when
   * the file leaves them out; the five undeclared fields have no initialiser
   * anywhere, so they are supplied.
   */
  function Defaults(appFilePattern: string, packageNamePattern: string, fileType: FileType,
                    locales: map<string, seq<string>>, status: TrackStatus): Configuration
  {
    Configuration(
      track := "alpha",
      flavors := [],
      version := "",
      releaseNotesByFlavor := map[],
      releaseNotes := "",
      baseFolder := None,
      apkFilePattern := DefaultApkFilePattern,
      mappingFilePattern := Some(DefaultMappingFilePattern),
      countries := [],
      countriesByFlavor := map[],
      unattended := false,
      abortOnError := false,
      appFilePattern := appFilePattern,
      packageNamePattern := packageNamePattern,
      fileType := fileType,
      locales := locales,
      status := status)
  }

  /**
   * The field initialisers: track "alpha", no flavors, empty version and
   * notes file, no base folder, the two default patterns, no countries
   * anywhere, and both switches off.
   */
  lemma DeclaredDefaults(appFilePattern: string, packageNamePattern: string, fileType: FileType,
                         locales: map<string, seq<string>>, status: TrackStatus)
    ensures var c := Defaults(appFilePattern, packageNamePattern, fileType, locales, status);
      && c.track == "alpha" && c.flavors == [] && c.version == "" && c.releaseNotes == ""
      && c.releaseNotesByFlavor == map[] && c.baseFolder.None?
      && c.apkFilePattern == "de.{flavor}.app-{version}.apk"
      && c.mappingFilePattern == Some("de.{flavor}.app-{version}-mapping.txt")
      && c.countries == [] && c.countriesByFlavor == map[]
      && !c.unattended && !c.abortOnError
  {
  }
}
