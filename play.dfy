/**
 * The slice of the Google Play Developer API (`AndroidPublisher.edits()`)
 * that the publishers call, as plain request and reply values, and a
 * remote service whose replies are scripted and whose calls are logged.
 */
module Play {
  import opened Wrappers
  import opened Platform

  /** A release note in one language (`LocalizedText`). */
  datatype LocalizedText = LocalizedText(language: string, text: string)

  /** The countries a release is limited to (`CountryTargeting`). */
  datatype CountryTargeting = CountryTargeting(countries: seq<string>, includeRestOfWorld: bool)

  /** One release on a track (`TrackRelease`). */
  datatype TrackRelease = TrackRelease(
    name: string,
    status: string,
    versionCodes: seq<int>,
    countryTargeting: Option<CountryTargeting>,
    releaseNotes: seq<LocalizedText>)

  /** A track and the releases submitted to it (`Track`). */
  datatype Track = Track(track: string, releases: seq<TrackRelease>)

  /** A file streamed to the service with its MIME type (`FileContent`). */
  datatype FileContent = FileContent(mimeType: string, file: Path)

  /** One API request, as built before its `execute()`. */
  datatype Request =
    | InsertEdit(packageName: string)
    | UploadApk(packageName: string, editId: string, content: FileContent)
    | UploadBundle(packageName: string, editId: string, content: FileContent)
    | UploadDeobfuscationFile(packageName: string, editId: string, apkVersionCode: int,
                              deobfuscationFileType: string, content: FileContent)
    | UpdateTrack(packageName: string, editId: string, trackName: string, track: Track)
    | CommitEdit(packageName: string, editId: string)
    | DeleteEdit(packageName: string, editId: string)

  /**
   * What `execute()` gives back: success, carrying the edit id an insert
   * returns and the version code an upload returns, or the message of the
   * exception it throws.
   */
  datatype Reply = Ok(editId: string, versionCode: int) | Failed(message: string)

  /** A request and the reply it received. */
  datatype Event = Event(request: Request, reply: Reply)

  /**
   * The remote service. Its `served`-th call gets the reply `replies(served)`,
   * so any sequence of successes and failures can be scripted; `log` records
   * every call and its reply, in order.
   */
  class EditsService {
    const replies: nat -> Reply
    var served: nat
    ghost var log: seq<Event>

    /** Every call so far is logged. */
    ghost predicate Valid()
      reads this
    {
      served == |log|
    }

    constructor (replies: nat -> Reply)
      ensures Valid() && this.replies == replies && log == []
    {
      this.replies := replies;
      served := 0;
      log := [];
    }

    /** Executes one request: takes the next scripted reply and logs the call. */
    method Execute(request: Request) returns (reply: Reply)
      requires Valid()
      modifies this
      ensures Valid()
      ensures reply == replies(|old(log)|)
      ensures log == old(log) + [Event(request, reply)]
    {
      reply := replies(served);
      served := served + 1;
      log := log + [Event(request, reply)];
    }
  }
}
