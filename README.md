# app-release-manager, modelled in Dafny

app-release-manager publishes Android artifacts (APKs and app bundles) to the
Google Play Developer API. This project models the decisions it makes around
those API calls:

- **The single-release transaction** (`ApkPublisher.publishSingleApp`):
  1. create an edit;
  2. upload the APK or the bundle;
  3. upload the mapping file, when one is given, tagged with the uploaded version code;
  4. update the track with exactly one release;
  5. commit.

  If any step after the edit exists fails, the edit is deleted. The reported
  `IOException` carries "Operation Failed: " plus the original message. When
  the delete fails too, its message is appended. The publishing service is an
  `EditsService` object. Its replies come from a script (`nat -> Reply`), and
  it keeps a ghost log of every call with the reply it got. The methods are
  proved to produce exactly the log and outcome of the specification function
  `SingleAppTrace`. The ordering and compensation properties are lemmas about
  that function.
- **Request assembly for one upload** (`ApkPublisher.publish`). A notes file
  wins over inline notes. A `.json` notes file gives its parsed entries. Any
  other notes file, and inline notes, give one entry in `en_US`. The
  `-countries` argument is split at commas with Java's `String.split`
  semantics: trailing empty pieces are dropped.
- **Batch publishing** (`MultiApkPublisher`). It does the following for each
  configured flavor, in order:
  1. builds the file names from the patterns with Java's `String.replace`;
  2. skips the flavor if its artifact is missing;
  3. tolerates a missing mapping file;
  4. lets the flavor's own countries and notes file override the global ones;
  5. filters the notes by the flavor's locales;
  6. asks the user, unless the run is unattended;
  7. publishes the flavor.

  Only under `abortOnError` does a failed flavor stop the batch. The class
  `MultiApkPublisher` keeps the source's fields (`configuration`,
  `baseFolder`), its `for` loop with `continue`, and the `while (true)`
  prompt loop. Both loops are proved against the specification functions
  `Batch` and `Confirmation`.
- **Small pure pieces**:
  - the publisher chosen by file-name suffix (`PublisherFactory`);
  - the two artifact kinds and their MIME types (`FileType`);
  - the configuration record and its defaults (`Configuration`).

Modules, one per file:
- `Wrappers`: Option, Result, Outcome.
- `Text`: Java `String.replace`, `split` and `endsWith`, and ASCII case mapping.
- `Platform`: paths and exceptions.
- `Play`: the API's requests and replies, and the `EditsService` class.
- `Files`: the file system as a map.
- `FileTypes`, `TrackStatuses`, `Arguments`, `Configurations`: the source's records and enums.
- `PublisherFactory`.
- `ApkPublishing` and its lemmas in `SingleAppProperties`.
- `FlavorResolution`: templates, countries, notes and confirmation for one flavor.
- `MultiApkPublishing`.

### Inconsistencies in the source

- **The configuration record is out of sync with its user.**
  `MultiApkPublisher` reads `appFilePattern`, `packageNamePattern`,
  `fileType`, `locales` and `status`. `Configuration.java` declares none of
  these, and has `apkFilePattern` instead. `Configurations.Configuration` is
  the union of both, and `Defaults` takes those five fields as parameters,
  since no initialiser for them exists. The declared `apkFilePattern` is
  never read by the batch.
- **The command-line arguments lack three values.** `CommandLineArguments.java`
  does not declare the version name, the file type or the track status,
  although `ApkPublisher.publish` reads all three.
  `Arguments.CommandLineArguments` includes them.
- **A missing `baseFolder`.** `MultiApkPublisher.publish` picks the
  configuration file's folder when `baseFolder` is "" (the `isEmpty()` test
  at MultiApkPublisher.java:44-45). `Configuration.java` defaults the field
  to `null`, so a file without `baseFolder` throws a `NullPointerException`
  at that test, before any flavor is handled. The model follows the code
  (`MultiApkPublishing.BaseFolderOf`).
- **Notes errors stop the batch.** Release notes are resolved outside the
  `try` block, so a notes file that cannot be read stops the whole batch,
  whatever `abortOnError` says. With the default `releaseNotes` of "", a
  flavor without its own notes file resolves the base folder itself as the
  notes file, the path `Resolved(base, "")` here. A folder is not a regular
  file, so reading it fails and the batch stops
  (`MultiApkPublishing.DefaultNotesPathStopsBatch`).
- **A missing locale list fails.** A flavor without an entry in `locales`
  fails with a `NullPointerException`, but only when its notes file has at
  least one entry.

## Model

| member | source | states |
|---|---|---|
| FileTypes.MimeTypes | src/main/java/app/release/model/FileType.java:5-17 | APK uploads as "application/vnd.android.package-archive", AAB as "application/octet-stream", and the two MIME types differ |
| FileTypes.MimeType | src/main/java/app/release/model/FileType.java:5-17 | the `mimeType` of each constant; its values and their distinctness are stated by `MimeTypes` |
| FileTypes.NamesDistinct | src/main/java/app/release/model/FileType.java:5-10 | there are two kinds, serialised as "APK" and "AAB", and no two kinds share a name |
| FileTypes.LowerNames | src/main/java/app/release/publisher/android/MultiApkPublisher.java:54 | the `{fileType}` substitution is "apk" or "aab" |
| TrackStatuses.NameInjective | src/main/java/app/release/publisher/android/ApkPublisher.java:172 | different track statuses are submitted as different strings |
| Configurations.Defaults | src/main/java/app/release/model/Configuration.java:27-50 | the record a configuration file that omits every declared field parses to; its values are stated by `DeclaredDefaults` |
| Configurations.DeclaredDefaults | src/main/java/app/release/model/Configuration.java:27-50 | track "alpha"; no flavors; empty version and notes file; no base folder; the two default file patterns; no countries, global or per flavor; `unattended` and `abortOnError` off |
| Text.EndsWith | src/main/java/app/release/publisher/PublisherFactory.java:19-27 | `String.endsWith`, also the ".json" test of ApkPublisher.java:63; characterised by `EndsWithIff` |
| Text.EndsWithIff | src/main/java/app/release/publisher/PublisherFactory.java:19-27 | a string ends with a suffix iff it is some prefix followed by the suffix |
| Text.UpperChar | src/main/java/app/release/publisher/android/MultiApkPublisher.java:140 | the upper-casing of a console answer; stated by `UpperAnswers` |
| Text.UpperAnswers | src/main/java/app/release/publisher/android/MultiApkPublisher.java:140-147 | an answer reads as "Y" iff it is "y" or "Y", as "N" iff it is "n" or "N"; a lower-case letter is upper-cased to a letter that lower-cases back to it |
| Text.Lower | src/main/java/app/release/publisher/PublisherFactory.java:18 | lower-casing keeps the length and maps each character on its own |
| Text.LowerIdempotent | src/main/java/app/release/publisher/PublisherFactory.java:18 | lower-casing twice is lower-casing once |
| Text.Replace | src/main/java/app/release/publisher/android/MultiApkPublisher.java:52-58 | Java's `String.replace` with a non-empty target; what it computes is fixed by `ReplaceAbsent` and `ReplaceAtFirst` |
| Text.ReplaceAtFirst | src/main/java/app/release/publisher/android/MultiApkPublisher.java:52-58 | everything before the first occurrence is kept, that occurrence becomes the replacement, and the scan resumes after it: every occurrence is replaced, non-overlapping, left to right |
| Text.ReplaceBothSides | src/main/java/app/release/publisher/android/MultiApkPublisher.java:52-58 | a target occurring twice, around a separator that cannot start it, is replaced both times |
| Text.ReplaceAbsent | src/main/java/app/release/publisher/android/MultiApkPublisher.java:52-58 | `replace` leaves a string without the target unchanged |
| Text.ReplaceBySelf | src/main/java/app/release/publisher/android/MultiApkPublisher.java:52-58 | replacing a target by itself gives the string back |
| Text.SplitAll | src/main/java/app/release/publisher/android/ApkPublisher.java:55 | splitting at a separator gives at least one piece |
| Text.JoinSplitAll | src/main/java/app/release/publisher/android/ApkPublisher.java:55 | joining the pieces of a split with the separator gives the string back, and no piece holds the separator |
| Text.SplitAllJoin | src/main/java/app/release/publisher/android/ApkPublisher.java:55 | splitting pieces that were joined gives the pieces back, when none holds the separator |
| Text.DropTrailingEmpty | src/main/java/app/release/publisher/android/ApkPublisher.java:55 | Java's `split` drops exactly the trailing empty pieces: the result is a prefix, what it drops is empty, and its last piece is not |
| Text.JavaSplit | src/main/java/app/release/publisher/android/ApkPublisher.java:55 | Java's `split` on one character: `[s]` without a separator, else the pieces less the trailing empty ones; fixed by `DropTrailingEmpty`'s contract, and stated by `JavaSplitPieces` and `JavaSplitRoundTrip` |
| Text.JavaSplitRoundTrip | src/main/java/app/release/publisher/android/ApkPublisher.java:55 | for a non-empty string not ending with the separator, Java's `split` keeps every piece and joining them gives the string back |
| Text.JavaSplitPieces | src/main/java/app/release/publisher/android/ApkPublisher.java:55 | the pieces of Java's `split` hold no separator and are a prefix of all the pieces; only empty pieces are dropped, and when the separator occurs the last kept piece is non-empty ("US,DE," gives `["US", "DE"]`) |
| PublisherFactory.BuildPublisher | src/main/java/app/release/publisher/PublisherFactory.java:15-34 | the APK publisher iff the lower-cased name ends in ".apk", the batch publisher iff ".json", the AAB publisher iff ".aab"; otherwise a `RuntimeException` naming the file |
| PublisherFactory.SuffixesExclusive | src/main/java/app/release/publisher/PublisherFactory.java:19-27 | no name ends with two of the three suffixes, so the order of the tests does not matter |
| PublisherFactory.DispatchIgnoresCase | src/main/java/app/release/publisher/PublisherFactory.java:18 | names that agree once lower-cased get the same publisher |
| PublisherFactory.UnsupportedNames | src/main/java/app/release/publisher/PublisherFactory.java:28-31 | a name is refused iff it ends with none of the suffixes; "app.apk.zip" is refused |
| Files.ReadText | src/main/java/app/release/publisher/android/ApkPublisher.java:66 | reading succeeds iff the path is a file, and fails with `FileNotFound` otherwise |
| Files.ReadReleaseNotesJson | src/main/java/app/release/publisher/android/ApkPublisher.java:79-83 | parsing succeeds iff the path is a file holding a notes array; otherwise not found or malformed |
| Play.EditsService.Execute | src/main/java/app/release/publisher/android/ApkPublisher.java:136 | each call gets the next scripted reply and is appended to the log with it |
| ApkPublishing.SingleAppTrace | src/main/java/app/release/publisher/android/ApkPublisher.java:94-203 | the calls and outcome of the transaction for given replies; what it promises is stated by the lemmas of `SingleAppProperties` and its flat reference in `SingleAppTraceIsReference` |
| ApkPublishing.RunUntilFailure | src/main/java/app/release/publisher/android/ApkPublisher.java:140-185 | steps in order, each with the next reply, until the first failure; stated by `RunFollowsSteps` and `RunStopsAtFailure` |
| ApkPublishing.TryBlock | src/main/java/app/release/publisher/android/ApkPublisher.java:140-185 | the `try` block: the upload, then the steps that need its version code; stated by `TryBlockRunsUntilFailure` |
| ApkPublishing.FailureMessage | src/main/java/app/release/publisher/android/ApkPublisher.java:188-197 | the composed failure message; stated by `FailureMessageParts` |
| ApkPublishing.FailureMessageParts | src/main/java/app/release/publisher/android/ApkPublisher.java:188-197 | the reported message starts with "Operation Failed: " and the whole original message; it is longer exactly when the delete failed, and then ends with "\nFailed to delete edit: " and the delete's message |
| ApkPublishing.UpdateAndCommit | src/main/java/app/release/publisher/android/ApkPublisher.java:170-183 | the calls and caught message are those of running the track update and the commit until the first failure |
| ApkPublishing.AfterUpload | src/main/java/app/release/publisher/android/ApkPublisher.java:162-183 | the same for the mapping upload (when there is a mapping file), the track update and the commit |
| ApkPublishing.TryUploadAndCommit | src/main/java/app/release/publisher/android/ApkPublisher.java:140-185 | the calls and caught message of the whole `try` block are those of `TryBlock` |
| ApkPublishing.PublishSingleApp | src/main/java/app/release/publisher/android/ApkPublisher.java:94-203 | the service's new calls and the outcome are exactly `SingleAppTrace` for the service's replies |
| ApkPublishing.CountryTargetingOf | src/main/java/app/release/publisher/android/ApkPublisher.java:53-56 | no targeting iff no `-countries`; otherwise comma-free pieces, without the rest of the world |
| ApkPublishing.CountriesRoundTrip | src/main/java/app/release/publisher/android/ApkPublisher.java:53-56 | a comma-separated list of non-empty, comma-free countries is targeted as that list, in order, without the rest of the world |
| ApkPublishing.ReleaseNotesOf | src/main/java/app/release/publisher/android/ApkPublisher.java:58-71 | the notes `publish` collects; stated case by case by `ReleaseNotesSources` and `NotesFileTakesPrecedence` |
| ApkPublishing.NotesFileTakesPrecedence | src/main/java/app/release/publisher/android/ApkPublisher.java:61-71 | with a notes file, the inline notes do not matter |
| ApkPublishing.ReleaseNotesSources | src/main/java/app/release/publisher/android/ApkPublisher.java:58-71 | no notes source gives no notes; inline notes give one "en_US" note; a non-".json" file gives one "en_US" note with its whole text, or not found; a ".json" file gives its parsed entries, and fails iff unreadable; the "en_US" notes are built by `ApkPublishing.DefaultLanguageNote` |
| ApkPublishing.RequestOf | src/main/java/app/release/publisher/android/ApkPublisher.java:73-76 | `publishSingleApp` receives the arguments' package name, application name, version name, file, track, status and file type unchanged, the mapping file iff one was given, a targeting iff countries were given, and the collected notes |
| ApkPublishing.Publish | src/main/java/app/release/publisher/android/ApkPublisher.java:47-77 | an unreadable notes file fails with no service call; otherwise the calls and outcome are `SingleAppTrace` of the request built from the arguments |
| SingleAppProperties.RunFollowsSteps | src/main/java/app/release/publisher/android/ApkPublisher.java:140-185 | running steps until a failure makes them in order, each with the next reply, at least one and at most all of them |
| SingleAppProperties.RunStopsAtFailure | src/main/java/app/release/publisher/android/ApkPublisher.java:140-186 | every call but the last succeeded; without a caught message every step ran and succeeded; a caught message is the failure of the last call |
| SingleAppProperties.TryBlockRunsUntilFailure | src/main/java/app/release/publisher/android/ApkPublisher.java:140-185 | the `try` block is a run until the first failure of the upload followed by the steps after it, with the uploaded version code |
| SingleAppProperties.PlanWrittenOut | src/main/java/app/release/publisher/android/ApkPublisher.java:136-183 | with a mapping file the transaction makes five calls (insert, upload, mapping, track, commit); without one, four |
| SingleAppProperties.PlanStart | src/main/java/app/release/publisher/android/ApkPublisher.java:136-168 | the insert comes first and the upload second; the mapping upload, when there is one, comes third and nowhere else |
| SingleAppProperties.PlanEnd | src/main/java/app/release/publisher/android/ApkPublisher.java:170-183 | the track update and the commit come last, in that order, and neither comes earlier |
| SingleAppProperties.PlanHasNoDelete | src/main/java/app/release/publisher/android/ApkPublisher.java:136-183 | the planned calls hold no delete |
| SingleAppProperties.SingleAppTraceIsReference | src/main/java/app/release/publisher/android/ApkPublisher.java:136-201 | the nested transaction equals a flat reference: run the plan until a failure, then delete if the edit exists |
| SingleAppProperties.CompensatedFollowsSteps | src/main/java/app/release/publisher/android/ApkPublisher.java:140-194 | a compensated run takes the replies in order, and every call except a final delete is the next step after successful ones |
| SingleAppProperties.CompensatedSuccess | src/main/java/app/release/publisher/android/ApkPublisher.java:140-185 | a compensated run passes iff every call succeeded, and then it made exactly the steps |
| SingleAppProperties.CompensatedFailure | src/main/java/app/release/publisher/android/ApkPublisher.java:186-201 | after a failure past the first step, one delete follows the failed call, and the error wraps the original message with the delete's failure appended |
| SingleAppProperties.CallsFollowPlan | src/main/java/app/release/publisher/android/ApkPublisher.java:136-194 | each call gets the next reply; no delete comes before the last call; every other call is the planned one, reached only after successes |
| SingleAppProperties.SuccessIffAllCallsSucceed | src/main/java/app/release/publisher/android/ApkPublisher.java:140-185 | the transaction succeeds iff every call succeeded, and then it made exactly the planned calls and no delete |
| SingleAppProperties.EditCreationFailureIsTerminal | src/main/java/app/release/publisher/android/ApkPublisher.java:136-140 | a failed insert is the only call: no delete, and the service's error as it is |
| SingleAppProperties.FailureAfterEditIsCompensated | src/main/java/app/release/publisher/android/ApkPublisher.java:186-201 | a failure after the insert is followed by exactly one delete of that edit; earlier calls are the planned ones and succeeded; the error is an `IOException` whose message is the composed one and whose cause is the original failure |
| SingleAppProperties.RepliesInOrder | src/main/java/app/release/publisher/android/ApkPublisher.java:136-194 | the i-th call gets the i-th reply |
| SingleAppProperties.DeleteOnlyAfterFailureAfterEdit | src/main/java/app/release/publisher/android/ApkPublisher.java:186-194 | a delete is made iff the insert succeeded and the transaction failed |
| SingleAppProperties.CommitOnlyAfterSuccess | src/main/java/app/release/publisher/android/ApkPublisher.java:180-183 | a commit is made only after every earlier call succeeded, right after the track update |
| SingleAppProperties.UploadTarget | src/main/java/app/release/publisher/android/ApkPublisher.java:143-158 | the second call uploads the artifact with its kind's MIME type into the new edit: to `apks()` for an APK, to `bundles()` for a bundle; this is the value of `ApkPublishing.UploadRequest` |
| SingleAppProperties.MappingTaggedWithVersionCode | src/main/java/app/release/publisher/android/ApkPublisher.java:162-166 | a mapping upload is the third call, exists only with a mapping file, and is a "proguard" file tagged with the uploaded version code |
| SingleAppProperties.TrackCarriesOneRelease | src/main/java/app/release/publisher/android/ApkPublisher.java:171-177 | the track update names the track and holds exactly one release: the version name, the status's name, the uploaded version code, the targeting and the notes; this is the value of `ApkPublishing.Release` |
| FlavorResolution.AppFileName | src/main/java/app/release/publisher/android/MultiApkPublisher.java:52-55 | the artifact name: "{version}", then "{fileType}" (lower-cased), then "{flavor}" replaced; stated by `AppFileNameRendersEveryOccurrence` and `PatternsWithoutPlaceholders` |
| FlavorResolution.PackageName | src/main/java/app/release/publisher/android/MultiApkPublisher.java:57-58 | the package name: only "{flavor}" replaced; stated by `PatternsWithoutPlaceholders` |
| FlavorResolution.MappingFileName | src/main/java/app/release/publisher/android/MultiApkPublisher.java:69-71 | the mapping name: "{version}" then "{flavor}" replaced, "{fileType}" left; stated by `MappingPatternWithoutPlaceholders` |
| FlavorResolution.AppFileNameRendersEveryOccurrence | src/main/java/app/release/publisher/android/MultiApkPublisher.java:52-55 | the pattern "{flavor}/{flavor}" names "<flavor>/<flavor>": every occurrence is rendered, whatever the version and file type |
| FlavorResolution.PatternsWithoutPlaceholders | src/main/java/app/release/publisher/android/MultiApkPublisher.java:52-58 | patterns without placeholders are returned unchanged |
| FlavorResolution.MappingPatternWithoutPlaceholders | src/main/java/app/release/publisher/android/MultiApkPublisher.java:69-71 | a mapping pattern without "{version}" and "{flavor}" is used as it is, "{fileType}" included |
| FlavorResolution.MappingFile | src/main/java/app/release/publisher/android/MultiApkPublisher.java:66-79 | no mapping iff the pattern is null or empty, or the named file is not a file; a mapping is always an existing file |
| FlavorResolution.EffectiveCountries | src/main/java/app/release/publisher/android/MultiApkPublisher.java:119-123 | the flavor's own country list if it has one, else the global list; its override is stated by `FlavorCountriesOverride` and `CountryTargetingFor` |
| FlavorResolution.CountryTargetingFor | src/main/java/app/release/publisher/android/MultiApkPublisher.java:118-131 | no targeting iff the effective list is empty; otherwise that list, without the rest of the world |
| FlavorResolution.FlavorCountriesOverride | src/main/java/app/release/publisher/android/MultiApkPublisher.java:119-123 | a flavor's own list, even an empty one, overrides the global list |
| FlavorResolution.DefaultsTargetNoCountry | src/main/java/app/release/model/Configuration.java:44-46 | the default configuration targets no country |
| FlavorResolution.KeepLocales | src/main/java/app/release/publisher/android/MultiApkPublisher.java:112 | the filter keeps only notes from the input whose language is in the locales |
| FlavorResolution.KeepLocalesComplete | src/main/java/app/release/publisher/android/MultiApkPublisher.java:112 | every note in the locales survives the filter |
| FlavorResolution.KeepLocalesCounts | src/main/java/app/release/publisher/android/MultiApkPublisher.java:112 | each note in the locales survives as many times as it occurs, and no other note survives |
| FlavorResolution.KeepLocalesInOrder | src/main/java/app/release/publisher/android/MultiApkPublisher.java:112 | the surviving notes keep their relative order |
| FlavorResolution.KeepLocalesIdempotent | src/main/java/app/release/publisher/android/MultiApkPublisher.java:112 | filtering twice is filtering once |
| FlavorResolution.KeepLocalesAll | src/main/java/app/release/publisher/android/MultiApkPublisher.java:112 | notes already in the locales are kept as they are |
| FlavorResolution.ReleaseNotesFile | src/main/java/app/release/publisher/android/MultiApkPublisher.java:107-109 | the flavor's own notes file if it has one, else the global `releaseNotes`, resolved against the base folder; stated by `FlavorNotesFileOverride` |
| FlavorResolution.ReleaseNotesFor | src/main/java/app/release/publisher/android/MultiApkPublisher.java:104-116 | succeeds iff the notes file is readable and the flavor has a locale list or the file is empty; an unreadable file is not found or malformed; entries without a locale list are a `NullPointerException` |
| FlavorResolution.FlavorNotesFileOverride | src/main/java/app/release/publisher/android/MultiApkPublisher.java:107-109 | a flavor's own notes file overrides the global `releaseNotes`, whatever that is, and its notes do not depend on it; a flavor without one reads the global file |
| FlavorResolution.ReleaseNotesForFlavor | src/main/java/app/release/publisher/android/MultiApkPublisher.java:104-116 | with a locale list, the notes are read from `ReleaseNotesFile` (the flavor's own file or else the global one, by `FlavorNotesFileOverride`), and fail iff it is unreadable; they are exactly that file's entries in the locales, in file order, each as many times as the file lists it |
| FlavorResolution.MissingLocalesFail | src/main/java/app/release/publisher/android/MultiApkPublisher.java:105-112 | without a locale list, reading a readable notes file fails iff it has entries |
| FlavorResolution.Confirmation | src/main/java/app/release/publisher/android/MultiApkPublisher.java:133-153 | a decision only reads forward, and never past the end of the input |
| FlavorResolution.DeclineIff | src/main/java/app/release/publisher/android/MultiApkPublisher.java:142-147 | the user declines iff an "N" follows some number of "Y" answers (either case) |
| FlavorResolution.ConfirmationConsumes | src/main/java/app/release/publisher/android/MultiApkPublisher.java:134-147 | every answer consumed before the last was "Y", and one that stops before the end of the input was not "Y" |
| MultiApkPublishing.BaseFolderOf | src/main/java/app/release/publisher/android/MultiApkPublisher.java:44-45 | a null `baseFolder` fails with a `NullPointerException`; "" gives the configuration file's folder; anything else gives that folder |
| MultiApkPublishing.FlavorRequest | src/main/java/app/release/publisher/android/MultiApkPublisher.java:94-97 | the flavor is passed as the application name and the configured version as the version name; the package name and artifact (`MultiApkPublishing.AppFile`, the rendered name resolved against the base folder) are the flavor's rendered ones; a mapping file is passed only if it is a file; a targeting iff the flavor's effective country list is non-empty; notes, file type, track and status pass unchanged |
| MultiApkPublishing.FlavorStep | src/main/java/app/release/publisher/android/MultiApkPublisher.java:49-100 | a missing artifact changes nothing; the log only grows; an unattended step reads no answer; a notes failure stops at once with no call; a stop after calls happens only under `abortOnError` |
| MultiApkPublishing.Batch | src/main/java/app/release/publisher/android/MultiApkPublisher.java:49-101 | the loop over the flavors, in order, until one stops it; stated by `BatchAppend`, `AbortSkipsRemaining`, `LogOnlyGrows`, `NoAbortWithoutPolicy` and the lemmas beside them |
| MultiApkPublishing.DefaultNotesPathStopsBatch | src/main/java/app/release/publisher/android/MultiApkPublisher.java:107-111 | with the default notes path "" and no notes file of its own, a flavor whose base folder is not a regular file stops the batch with `FileNotFound`, before any prompt or call |
| MultiApkPublishing.PublishFailureStopsIffAbortOnError | src/main/java/app/release/publisher/android/MultiApkPublisher.java:93-100 | a published flavor adds its transaction's calls, and stops the batch iff it failed and `abortOnError` is set, with that error |
| MultiApkPublishing.DeclinedFlavorIsSkipped | src/main/java/app/release/publisher/android/MultiApkPublisher.java:85-92 | a declined flavor makes no call; only the console input moves on |
| MultiApkPublishing.BatchAppend | src/main/java/app/release/publisher/android/MultiApkPublisher.java:49 | flavors run in list order: a joined list runs the first part and then, unless stopped, the second |
| MultiApkPublishing.AbortSkipsRemaining | src/main/java/app/release/publisher/android/MultiApkPublisher.java:93-100 | once a flavor stops the batch, no later flavor runs |
| MultiApkPublishing.LogOnlyGrows | src/main/java/app/release/publisher/android/MultiApkPublisher.java:49-101 | the batch only appends calls to the log and reads the console input forward |
| MultiApkPublishing.UnattendedReadsNoAnswers | src/main/java/app/release/publisher/android/MultiApkPublisher.java:85 | an unattended batch never reads the console |
| MultiApkPublishing.NoAbortWithoutPolicy | src/main/java/app/release/publisher/android/MultiApkPublisher.java:93-100 | without `abortOnError` the batch finishes unless an existing flavor's notes fail |
| MultiApkPublishing.MissingArtifactsChangeNothing | src/main/java/app/release/publisher/android/MultiApkPublisher.java:60-64 | flavors without artifacts cause no prompt, no call and no abort |
| MultiApkPublishing.DefaultsPublishNothing | src/main/java/app/release/model/Configuration.java:30 | the default, empty flavor list publishes nothing |
| MultiApkPublishing.MultiApkPublisher.Confirm | src/main/java/app/release/publisher/android/MultiApkPublisher.java:133-153 | the prompt loop's answer and input position are `Confirmation`'s |
| MultiApkPublishing.MultiApkPublisher.GetReleaseNotes | src/main/java/app/release/publisher/android/MultiApkPublisher.java:104-116 | the notes are `ReleaseNotesFor` of the publisher's configuration and base folder |
| MultiApkPublishing.MultiApkPublisher.Publish | src/main/java/app/release/publisher/android/MultiApkPublisher.java:37-102 | a configuration error fails with nothing changed; otherwise the configuration is stored; a null base folder fails; otherwise the calls and outcome are `Batch` over the flavors from the old log |

## Left out

- The Google API client, its transport, credential loading and the network calls. They become the scripted `EditsService`, whose every call succeeds with an id or version code, or fails with a message.
- JSON parsing of the configuration and the notes files. `MultiApkPublisher.Publish` takes the parse result as a parameter. The file system holds already-parsed notes arrays.
- Path normalisation and resolution. Paths are symbolic terms (`Given`, `ParentOf`, `Resolved`). A configuration file without a parent folder (`getParent()` giving `null`) is not modelled.
- Reading APK metadata with `ApkFile` before the service is built (ApkPublisher.java:107-124). It only logs. A failure to read the APK there, which would throw before any call, is not modelled.
- The `default` branches of the `fileType` switches. `FileType` has exactly two constants, so these branches are unreachable.
- The console output of `confirm` (`printf`), and the `skip(available())` that discards buffered input. Each prompt reads the next character of the answer sequence, so typed-ahead characters are not discarded. The retry after an `IOException` is also left out.
- Logging. This includes the skip message that evaluates `arguments.getFileType()` in the batch publisher.
- `Text.Lower` and `Text.UpperChar`: only ASCII letters change case. `Lower` stands for `toLowerCase()` in the JVM's default locale (PublisherFactory.java:18) and for `toLowerCase(Locale.ROOT)` on the file-type name. `UpperChar` stands for `toUpperCase(Locale.ROOT)` (MultiApkPublisher.java:140). Neither maps other characters. For example, Java lower-cases the Kelvin sign U+212A to 'k', so it sends a name ending in ".ap" followed by U+212A to the APK publisher, while the model refuses that name.
- `Text.Replace`: requires a non-empty target. Java's `replace` with an empty target inserts the replacement between characters, but every target the source uses is a non-empty placeholder.
- `null` values other than `baseFolder`, `mappingFilePattern` and a missing locale list. Other `null` fields or arguments (for example a `null` pattern) are not modelled.
- `AabPublisher`. It appears only as a dispatch target of `PublisherFactory`.
- `TrackStatus.java` is not part of this model. The status strings "draft", "inProgress", "halted" and "completed" in `TrackStatuses.Name` are the publishing API's release statuses, assumed rather than taken from that file.
- The platform charset used to read a plain-text notes file. The file's text is taken as it is.
