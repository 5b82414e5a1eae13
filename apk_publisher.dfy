/**
 * `ApkPublisher`: assembles one publish request from the command line and
 * runs the single-release transaction against the publishing API: create an
 * edit, upload the artifact, optionally upload the mapping file, update the
 * track with one release, commit; on a failure after the edit exists, delete
 * the edit and report the original failure.
 */
module ApkPublishing {
  import opened Wrappers
  import opened Platform
  import opened Play
  import opened Files
  import opened Text
  import opened FileTypes
  import TrackStatuses
  import opened Arguments

  /** MIME type of a mapping file upload. */
  const MimeTypeMapping := "application/octet-stream"
  /** Kind of deobfuscation file a mapping file is uploaded as. */
  const DeobfuscationFileType := "proguard"
  /** `Locale.US.toString()`, the language of notes that do not state one. */
  const DefaultLanguage := "en_US"
  const FailurePrefix := "Operation Failed: "
  const DeleteFailurePrefix := "\nFailed to delete edit: "

  /** The arguments of `publishSingleApp`. */
  datatype SingleAppRequest = SingleAppRequest(
    packageName: string,
    applicationName: string,
    versionName: string,
    appFile: Path,
    mappingFile: Option<Path>,
    countryTargeting: Option<CountryTargeting>,
    releaseNotes: seq<LocalizedText>,
    fileType: FileType,
    trackName: string,
    trackStatus: TrackStatuses.TrackStatus)

  /** The calls one transaction makes, with their replies, and how it ends. */
  datatype Trace = Trace(events: seq<Event>, outcome: Outcome<Exception>)

  // ---------------------------------------------------------------------------
  // The transaction, as a function of the replies the service gives
  // ---------------------------------------------------------------------------

  /** The upload of the artifact: APKs go to `apks()`, bundles to `bundles()`. */
  function UploadRequest(req: SingleAppRequest, editId: string): Request {
    var content := FileContent(MimeType(req.fileType), req.appFile);
    match req.fileType
    case APK => UploadApk(req.packageName, editId, content)
    case AAB => UploadBundle(req.packageName, editId, content)
  }

  /** The one release submitted to the track. */
  function Release(req: SingleAppRequest, versionCode: int): TrackRelease {
    TrackRelease(req.versionName, TrackStatuses.Name(req.trackStatus), [versionCode],
                 req.countryTargeting, req.releaseNotes)
  }

  /** The track update and the commit that end every successful transaction. */
  function FinalSteps(req: SingleAppRequest, editId: string, versionCode: int): seq<Request> {
    [UpdateTrack(req.packageName, editId, req.trackName, Track(req.trackName, [Release(req, versionCode)])),
     CommitEdit(req.packageName, editId)]
  }

  /** The mapping upload (when there is a mapping file), the track update and the commit. */
  function StepsAfterUpload(req: SingleAppRequest, editId: string, versionCode: int): seq<Request> {
    (if req.mappingFile.Some? then
       [UploadDeobfuscationFile(req.packageName, editId, versionCode, DeobfuscationFileType,
                                FileContent(MimeTypeMapping, req.mappingFile.value))]
     else [])
    + FinalSteps(req, editId, versionCode)
  }

  /** Every call, in order, when nothing fails. */
  function Plan(req: SingleAppRequest, editId: string, versionCode: int): seq<Request> {
    [InsertEdit(req.packageName), UploadRequest(req, editId)] + StepsAfterUpload(req, editId, versionCode)
  }

  /** The message of the reported error, given the original message and the reply to the delete. */
  function FailureMessage(cause: string, deletion: Reply): string {
    FailurePrefix + cause + (if deletion.Failed? then DeleteFailurePrefix + deletion.message else "")
  }

  /**
   * The prefixed original message comes first and is kept whole; the
   * message is longer exactly when the delete failed, and then ends with
   * the delete's failure.
   */
  lemma FailureMessageParts(cause: string, deletion: Reply)
    ensures var r := FailureMessage(cause, deletion);
      && |FailurePrefix| + |cause| <= |r| && r[..|FailurePrefix| + |cause|] == FailurePrefix + cause
      && (deletion.Ok? <==> |r| == |FailurePrefix| + |cause|)
      && (deletion.Failed? ==> EndsWith(r, DeleteFailurePrefix + deletion.message))
  {
  }

  /** The calls the `try` block makes, and the message of the exception it throws, if any. */
  datatype Attempt = Attempt(events: seq<Event>, caught: Option<string>)

  /** Runs `steps` in order from reply `k` on, stopping at the first failure. */
  function RunUntilFailure(steps: seq<Request>, replies: nat -> Reply, k: nat): Attempt
    decreases |steps|
  {
    if steps == [] then Attempt([], None)
    else
      var reply := replies(k);
      if reply.Failed? then Attempt([Event(steps[0], reply)], Some(reply.message))
      else
        var rest := RunUntilFailure(steps[1..], replies, k + 1);
        Attempt([Event(steps[0], reply)] + rest.events, rest.caught)
  }

  /** The `try` block: upload, then the steps that need the uploaded version code. */
  function TryBlock(req: SingleAppRequest, editId: string, replies: nat -> Reply, k: nat): Attempt {
    var uploaded := replies(k);
    var upload := Event(UploadRequest(req, editId), uploaded);
    if uploaded.Failed? then Attempt([upload], Some(uploaded.message))
    else
      var rest := RunUntilFailure(StepsAfterUpload(req, editId, uploaded.versionCode), replies, k + 1);
      Attempt([upload] + rest.events, rest.caught)
  }

  /**
   * `publishSingleApp` when the service's call number `start + i` gets the
   * reply `replies(start + i)`. A failure to create the edit is reported as
   * it is and nothing else runs; a failure in the `try` block deletes the
   * edit and reports the original failure, with the delete's failure appended.
   */
  function SingleAppTrace(req: SingleAppRequest, replies: nat -> Reply, start: nat): Trace {
    var created := replies(start);
    var first := [Event(InsertEdit(req.packageName), created)];
    if created.Failed? then Trace(first, Fail(ServiceException(created.message)))
    else
      var editId := created.editId;
      var attempt := TryBlock(req, editId, replies, start + 1);
      var done := first + attempt.events;
      if attempt.caught.None? then Trace(done, Pass)
      else
        var cause := attempt.caught.value;
        var deletion := replies(start + 1 + |attempt.events|);
        Trace(done + [Event(DeleteEdit(req.packageName, editId), deletion)],
              Fail(IOException(FailureMessage(cause, deletion), Some(ServiceException(cause)))))
  }

  /** A successful step is followed by the rest of the steps. */
  lemma StepSucceeds(steps: seq<Request>, replies: nat -> Reply, k: nat)
    requires steps != [] && replies(k).Ok?
    ensures var a := RunUntilFailure(steps, replies, k);
      var rest := RunUntilFailure(steps[1..], replies, k + 1);
      a.events == [Event(steps[0], replies(k))] + rest.events && a.caught == rest.caught
  {
  }

  /** A failed step ends the block with its message. */
  lemma StepFails(steps: seq<Request>, replies: nat -> Reply, k: nat)
    requires steps != [] && replies(k).Failed?
    ensures RunUntilFailure(steps, replies, k) == Attempt([Event(steps[0], replies(k))], Some(replies(k).message))
  {
  }

  /** A successful upload is followed by the steps that need its version code. */
  lemma UploadSucceeds(req: SingleAppRequest, editId: string, replies: nat -> Reply, k: nat)
    requires replies(k).Ok?
    ensures var a := TryBlock(req, editId, replies, k);
      var rest := RunUntilFailure(StepsAfterUpload(req, editId, replies(k).versionCode), replies, k + 1);
      a.events == [Event(UploadRequest(req, editId), replies(k))] + rest.events && a.caught == rest.caught
  {
  }

  /** The message built with `+=` in the catch block is `FailureMessage`. */
  lemma MessageComposition(cause: string, deletion: Reply, msg: string)
    requires msg == if deletion.Failed? then FailurePrefix + cause + DeleteFailurePrefix + deletion.message
                    else FailurePrefix + cause
    ensures msg == FailureMessage(cause, deletion)
  {
  }

  // ---------------------------------------------------------------------------
  // The transaction, step by step
  // ---------------------------------------------------------------------------

  /** The end of the `try` block: update the track with the one release, then commit. */
  method UpdateAndCommit(service: EditsService, req: SingleAppRequest, editId: string, versionCode: int)
    returns (caught: Option<string>)
    requires service.Valid()
    modifies service
    ensures service.Valid()
    ensures var a := RunUntilFailure(FinalSteps(req, editId, versionCode), service.replies, |old(service.log)|);
      service.log == old(service.log) + a.events && caught == a.caught
  {
    ghost var steps := FinalSteps(req, editId, versionCode);
    var track := Track(req.trackName, [Release(req, versionCode)]);
    var updated := service.Execute(UpdateTrack(req.packageName, editId, req.trackName, track));
    if updated.Failed? {
      StepFails(steps, service.replies, |service.log| - 1);
      return Some(updated.message);
    }
    StepSucceeds(steps, service.replies, |service.log| - 1);
    var committed := service.Execute(CommitEdit(req.packageName, editId));
    if committed.Failed? {
      StepFails(steps[1..], service.replies, |service.log| - 1);
      return Some(committed.message);
    }
    StepSucceeds(steps[1..], service.replies, |service.log| - 1);
    return None;
  }

  /** The steps after the upload: the mapping file when there is one, then the track and the commit. */
  method AfterUpload(service: EditsService, req: SingleAppRequest, editId: string, versionCode: int)
    returns (caught: Option<string>)
    requires service.Valid()
    modifies service
    ensures service.Valid()
    ensures var a := RunUntilFailure(StepsAfterUpload(req, editId, versionCode), service.replies, |old(service.log)|);
      service.log == old(service.log) + a.events && caught == a.caught
  {
    ghost var steps := StepsAfterUpload(req, editId, versionCode);
    if req.mappingFile.Some? {
      var mapping := service.Execute(UploadDeobfuscationFile(req.packageName, editId, versionCode,
        DeobfuscationFileType, FileContent(MimeTypeMapping, req.mappingFile.value)));
      if mapping.Failed? {
        StepFails(steps, service.replies, |service.log| - 1);
        return Some(mapping.message);
      }
      StepSucceeds(steps, service.replies, |service.log| - 1);
      assert steps[1..] == FinalSteps(req, editId, versionCode);
    } else {
      assert steps == FinalSteps(req, editId, versionCode);
    }
    caught := UpdateAndCommit(service, req, editId, versionCode);
  }

  /**
   * The body of the `try` block of `publishSingleApp`: upload the artifact,
   * upload the mapping file when there is one, update the track, commit;
   * the first call that fails ends the block with its message.
   */
  method TryUploadAndCommit(service: EditsService, req: SingleAppRequest, editId: string)
    returns (caught: Option<string>)
    requires service.Valid()
    modifies service
    ensures service.Valid()
    ensures var a := TryBlock(req, editId, service.replies, |old(service.log)|);
      service.log == old(service.log) + a.events && caught == a.caught
  {
    var uploaded := service.Execute(UploadRequest(req, editId));
    if uploaded.Failed? {
      return Some(uploaded.message);
    }
    UploadSucceeds(req, editId, service.replies, |service.log| - 1);
    caught := AfterUpload(service, req, editId, uploaded.versionCode);
  }

  /**
   * `publishSingleApp`: the calls the service receives and the outcome are
   * those of `SingleAppTrace` for the service's scripted replies.
   */
  method PublishSingleApp(service: EditsService, req: SingleAppRequest) returns (outcome: Outcome<Exception>)
    requires service.Valid()
    modifies service
    ensures service.Valid()
    ensures var t := SingleAppTrace(req, service.replies, |old(service.log)|);
      service.log == old(service.log) + t.events && outcome == t.outcome
  {
    // create an edit
    var edit := service.Execute(InsertEdit(req.packageName));
    if edit.Failed? {
      return Fail(ServiceException(edit.message));
    }
    var editId := edit.editId;

    var caught := TryUploadAndCommit(service, req, editId);
    if caught.Some? {
      // abort: delete the edit and report the original failure
      var msg := FailurePrefix + caught.value;
      var deleted := service.Execute(DeleteEdit(req.packageName, editId));
      if deleted.Failed? {
        msg := msg + DeleteFailurePrefix + deleted.message;
      }
      MessageComposition(caught.value, deleted, msg);
      return Fail(IOException(msg, Some(ServiceException(caught.value))));
    }
    return Pass;
  }

  // ---------------------------------------------------------------------------
  // Request assembly from the command line
  // ---------------------------------------------------------------------------

  /** Release notes given inline or as a plain-text file are in this one language. */
  function DefaultLanguageNote(text: string): LocalizedText {
    LocalizedText(DefaultLanguage, text)
  }

  /**
   * The country targeting `publish` builds: none without `-countries`;
   * otherwise the argument split at ",", in order, without the rest of the world.
   */
  function CountryTargetingOf(countries: Option<string>): (r: Option<CountryTargeting>)
    ensures r.None? <==> countries.None?
    ensures r.Some? ==> !r.value.includeRestOfWorld && SeparatorFree(r.value.countries, ',')
  {
    if countries.None? then None
    else
      JavaSplitPieces(countries.value, ',');
      Some(CountryTargeting(JavaSplit(countries.value, ','), false))
  }

  /**
   * The release notes `publish` collects: from the notes file when one is
   * given (parsed when its name ends in ".json", else its whole text in the
   * default language), else from the inline notes, else none. A file that
   * cannot be read or parsed is an error.
   */
  function ReleaseNotesOf(arguments: CommandLineArguments, fs: FileSystem): Result<seq<LocalizedText>, Exception> {
    match arguments.notesPath
    case Some(notesPath) =>
      var notesFile := Given(notesPath);
      if EndsWith(notesPath, ".json") then ReadReleaseNotesJson(fs, notesFile)
      else
        var content := ReadText(fs, notesFile);
        if content.Failure? then Failure(content.error) else Success([DefaultLanguageNote(content.value)])
    case None =>
      if arguments.notes.Some? then Success([DefaultLanguageNote(arguments.notes.value)]) else Success([])
  }

  /** The call `publish` makes to `publishSingleApp`, given the release notes it collected. */
  function RequestOf(arguments: CommandLineArguments, releaseNotes: seq<LocalizedText>): (r: SingleAppRequest)
    ensures r.packageName == arguments.packageName && r.applicationName == arguments.appName
    ensures r.versionName == arguments.versionName && r.appFile == Given(arguments.file)
    ensures r.mappingFile.Some? <==> arguments.mappingFile.Some?
    ensures r.mappingFile.Some? ==> r.mappingFile.value == Given(arguments.mappingFile.value)
    ensures r.countryTargeting.None? <==> arguments.countries.None?
    ensures r.releaseNotes == releaseNotes
    ensures r.fileType == arguments.fileType && r.trackName == arguments.trackName && r.trackStatus == arguments.status
  {
    SingleAppRequest(
      arguments.packageName, arguments.appName, arguments.versionName, Given(arguments.file),
      if arguments.mappingFile.Some? then Some(Given(arguments.mappingFile.value)) else None,
      CountryTargetingOf(arguments.countries), releaseNotes, arguments.fileType, arguments.trackName,
      arguments.status)
  }

  /**
   * A list of countries written with commas between them is targeted as
   * that list, in order, when every country is named and none holds a comma.
   */
  lemma CountriesRoundTrip(countries: seq<string>)
    requires |countries| >= 1 && SeparatorFree(countries, ',')
    requires forall k :: 0 <= k < |countries| ==> countries[k] != []
    ensures CountryTargetingOf(Some(Join(countries, ','))) == Some(CountryTargeting(countries, false))
  {
    var s := Join(countries, ',');
    var last := countries[|countries| - 1];
    JoinEndsWithLastPiece(countries, ',');
    assert s[|s| - 1] == last[|last| - 1];
    assert last[|last| - 1] in last;
    JavaSplitRoundTrip(s, ',');
    SplitAllJoin(countries, ',');
  }

  /** A notes file wins over inline notes: with a notes file, the inline notes are not read. */
  lemma NotesFileTakesPrecedence(arguments: CommandLineArguments, fs: FileSystem, notes: Option<string>)
    requires arguments.notesPath.Some?
    ensures ReleaseNotesOf(arguments.(notes := notes), fs) == ReleaseNotesOf(arguments, fs)
  {
  }

  /**
   * The notes, case by case: none given is no notes; inline notes are one
   * note in "en_US"; a notes file whose name does not end in ".json" is one
   * note in "en_US" holding its whole text; one whose name ends in ".json"
   * gives its parsed entries, in file order.
   */
  lemma ReleaseNotesSources(arguments: CommandLineArguments, fs: FileSystem)
    ensures arguments.notesPath.None? && arguments.notes.None? ==> ReleaseNotesOf(arguments, fs) == Success([])
    ensures arguments.notesPath.None? && arguments.notes.Some? ==>
      ReleaseNotesOf(arguments, fs) == Success([LocalizedText("en_US", arguments.notes.value)])
    ensures arguments.notesPath.Some? && !EndsWith(arguments.notesPath.value, ".json") ==>
      var file := Given(arguments.notesPath.value);
      ReleaseNotesOf(arguments, fs) ==
        if file in fs.files then Success([LocalizedText("en_US", fs.files[file])]) else Failure(FileNotFound(file))
    ensures arguments.notesPath.Some? && EndsWith(arguments.notesPath.value, ".json") ==>
      var file := Given(arguments.notesPath.value);
      ReleaseNotesOf(arguments, fs).Success? <==> file in fs.files && file in fs.releaseNotesJson
    ensures arguments.notesPath.Some? && EndsWith(arguments.notesPath.value, ".json") &&
            ReleaseNotesOf(arguments, fs).Success? ==>
      ReleaseNotesOf(arguments, fs).value == fs.releaseNotesJson[Given(arguments.notesPath.value)]
  {
  }

  /**
   * `publish`: collects the release notes into a list, stopping with the
   * error when the notes file cannot be read, then runs `publishSingleApp`
   * with the request built from the arguments.
   */
  method Publish(arguments: CommandLineArguments, fs: FileSystem, service: EditsService)
    returns (outcome: Outcome<Exception>)
    requires service.Valid()
    modifies service
    ensures service.Valid()
    ensures match ReleaseNotesOf(arguments, fs)
      case Failure(e) => outcome == Fail(e) && service.log == old(service.log)
      case Success(notes) =>
        var t := SingleAppTrace(RequestOf(arguments, notes), service.replies, |old(service.log)|);
        service.log == old(service.log) + t.events && outcome == t.outcome
  {
    var releaseNotes: seq<LocalizedText> := [];
    if arguments.notesPath.Some? {
      var notesFile := Given(arguments.notesPath.value);
      if EndsWith(arguments.notesPath.value, ".json") {
        var parsed := ReadReleaseNotesJson(fs, notesFile);
        if parsed.Failure? {
          return Fail(parsed.error);
        }
        releaseNotes := releaseNotes + parsed.value;
        assert releaseNotes == parsed.value;
      } else {
        var content := ReadText(fs, notesFile);
        if content.Failure? {
          return Fail(content.error);
        }
        releaseNotes := releaseNotes + [DefaultLanguageNote(content.value)];
        assert releaseNotes == [DefaultLanguageNote(content.value)];
      }
    } else if arguments.notes.Some? {
      releaseNotes := releaseNotes + [DefaultLanguageNote(arguments.notes.value)];
      assert releaseNotes == [DefaultLanguageNote(arguments.notes.value)];
    }
    assert ReleaseNotesOf(arguments, fs) == Success(releaseNotes);
    outcome := PublishSingleApp(service, RequestOf(arguments, releaseNotes));
  }
}
