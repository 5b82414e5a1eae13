/**
 * Properties of the single-release transaction of `ApkPublisher`, stated over
 * `SingleAppTrace`, which `PublishSingleApp` is proved to follow call by call.
 *
 * The nested structure of the source (an insert outside the `try`, an upload
 * whose version code the later steps need, a `catch` that deletes the edit)
 * is first shown equal to a flat reference: run the whole plan of calls until
 * the first failure; if the edit was created and something later failed,
 * delete the edit. The ordering and compensation properties follow from that.
 */
module SingleAppProperties {
  import opened Wrappers
  import opened Platform
  import opened Play
  import opened ApkPublishing
  import opened FileTypes
  import TrackStatuses

  /** The edit id an insert reply carries (a failed insert carries none and no call then needs one). */
  function EditIdOf(r: Reply): string {
    if r.Ok? then r.editId else ""
  }

  /** The version code an upload reply carries (a failed upload carries none and no call then needs one). */
  function VersionCodeOf(r: Reply): int {
    if r.Ok? then r.versionCode else 0
  }

  /** Every call in `events` succeeded. */
  predicate AllOk(events: seq<Event>) {
    forall i :: 0 <= i < |events| ==> events[i].reply.Ok?
  }

  /** No call in `events` is a delete. */
  predicate NoDelete(events: seq<Event>) {
    forall i :: 0 <= i < |events| ==> !events[i].request.DeleteEdit?
  }

  /** The calls of the whole transaction when nothing fails, with the ids the service hands out. */
  function PlanFor(req: SingleAppRequest, replies: nat -> Reply, start: nat): seq<Request> {
    Plan(req, EditIdOf(replies(start)), VersionCodeOf(replies(start + 1)))
  }

  /** No request in `steps` is a delete. */
  predicate DeleteFree(steps: seq<Request>) {
    forall i :: 0 <= i < |steps| ==> !steps[i].DeleteEdit?
  }

  /**
   * A run of `steps` with compensation: the steps run until the first
   * failure; a failure of the first step is reported as it is; a later
   * failure is followed by the `delete` call and reported wrapped.
   */
  function Compensated(steps: seq<Request>, delete: Request, replies: nat -> Reply, start: nat): Trace {
    var run := RunUntilFailure(steps, replies, start);
    if run.caught.None? then Trace(run.events, Pass)
    else if |run.events| <= 1 then Trace(run.events, Fail(ServiceException(run.caught.value)))
    else
      var cause := run.caught.value;
      var deletion := replies(start + |run.events|);
      Trace(run.events + [Event(delete, deletion)],
            Fail(IOException(FailureMessage(cause, deletion), Some(ServiceException(cause)))))
  }

  /**
   * The transaction stated flat: the whole plan runs with compensation by a
   * delete of the created edit.
   */
  function ReferenceTrace(req: SingleAppRequest, replies: nat -> Reply, start: nat): Trace {
    Compensated(PlanFor(req, replies, start), DeleteEdit(req.packageName, EditIdOf(replies(start))), replies, start)
  }

  /**
   * Running steps until the first failure makes the steps in order: the
   * `i`-th call is the `i`-th step and gets the `i`-th reply.
   */
  lemma {:induction false} RunFollowsSteps(steps: seq<Request>, replies: nat -> Reply, k: nat)
    ensures var a := RunUntilFailure(steps, replies, k);
      && |a.events| <= |steps|
      && (steps != [] ==> |a.events| >= 1)
      && (forall i :: 0 <= i < |a.events| ==> a.events[i] == Event(steps[i], replies(k + i)))
    decreases |steps|
  {
    if steps != [] && replies(k).Ok? {
      var a := RunUntilFailure(steps, replies, k);
      var rest := RunUntilFailure(steps[1..], replies, k + 1);
      RunFollowsSteps(steps[1..], replies, k + 1);
      forall i | 1 <= i < |a.events|
        ensures a.events[i] == Event(steps[i], replies(k + i))
      {
        assert a.events[i] == rest.events[i - 1];
      }
    }
  }

  /**
   * Running steps until the first failure stops at the first failure: every
   * call but the last succeeded, and the run ends early exactly when its last
   * call failed, with that call's message.
   */
  lemma {:induction false} RunStopsAtFailure(steps: seq<Request>, replies: nat -> Reply, k: nat)
    ensures var a := RunUntilFailure(steps, replies, k);
      && (forall i :: 0 <= i < |a.events| - 1 ==> a.events[i].reply.Ok?)
      && (a.caught.None? ==> |a.events| == |steps| && AllOk(a.events))
      && (a.caught.Some? ==> |a.events| >= 1 && a.events[|a.events| - 1].reply == Failed(a.caught.value))
    decreases |steps|
  {
    if steps != [] && replies(k).Ok? {
      var a := RunUntilFailure(steps, replies, k);
      var rest := RunUntilFailure(steps[1..], replies, k + 1);
      RunStopsAtFailure(steps[1..], replies, k + 1);
      forall i | 1 <= i < |a.events|
        ensures a.events[i] == rest.events[i - 1]
      {
      }
    }
  }

  /**
   * The `try` block is a run until the first failure of the upload followed
   * by the steps that need its version code.
   */
  lemma TryBlockRunsUntilFailure(req: SingleAppRequest, editId: string, replies: nat -> Reply, k: nat)
    ensures TryBlock(req, editId, replies, k) ==
            RunUntilFailure([UploadRequest(req, editId)] + StepsAfterUpload(req, editId, VersionCodeOf(replies(k))),
                            replies, k)
  {
    var steps := [UploadRequest(req, editId)] + StepsAfterUpload(req, editId, VersionCodeOf(replies(k)));
    assert steps[1..] == StepsAfterUpload(req, editId, VersionCodeOf(replies(k)));
  }

  /** The plan's own steps, written out: with a mapping file it has five calls, without four. */
  lemma PlanWrittenOut(req: SingleAppRequest, editId: string, versionCode: int)
    ensures var plan := Plan(req, editId, versionCode);
      var update := UpdateTrack(req.packageName, editId, req.trackName, Track(req.trackName, [Release(req, versionCode)]));
      var commit := CommitEdit(req.packageName, editId);
      if req.mappingFile.Some? then
        plan == [InsertEdit(req.packageName), UploadRequest(req, editId),
                 UploadDeobfuscationFile(req.packageName, editId, versionCode, DeobfuscationFileType,
                                         FileContent(MimeTypeMapping, req.mappingFile.value)),
                 update, commit]
      else plan == [InsertEdit(req.packageName), UploadRequest(req, editId), update, commit]
  {
  }

  /** The plan starts with the insert and the upload; the mapping upload, when there is one, comes third and only there. */
  lemma PlanStart(req: SingleAppRequest, editId: string, versionCode: int)
    ensures var plan := Plan(req, editId, versionCode);
      && |plan| >= 4
      && plan[0] == InsertEdit(req.packageName)
      && plan[1] == UploadRequest(req, editId)
      && (req.mappingFile.Some? ==>
            plan[2] == UploadDeobfuscationFile(req.packageName, editId, versionCode, DeobfuscationFileType,
                                               FileContent(MimeTypeMapping, req.mappingFile.value)))
      && (forall i :: 0 <= i < |plan| && plan[i].UploadDeobfuscationFile? ==> req.mappingFile.Some? && i == 2)
  {
    PlanWrittenOut(req, editId, versionCode);
    assert UploadRequest(req, editId).UploadApk? || UploadRequest(req, editId).UploadBundle?;
  }

  /** The plan ends with the track update and the commit, and neither comes earlier. */
  lemma PlanEnd(req: SingleAppRequest, editId: string, versionCode: int)
    ensures var plan := Plan(req, editId, versionCode);
      && |plan| >= 4
      && plan[|plan| - 2] == UpdateTrack(req.packageName, editId, req.trackName,
                                         Track(req.trackName, [Release(req, versionCode)]))
      && plan[|plan| - 1] == CommitEdit(req.packageName, editId)
      && (forall i :: 0 <= i < |plan| - 1 ==> !plan[i].CommitEdit?)
      && (forall i :: 0 <= i < |plan| - 2 ==> !plan[i].UpdateTrack?)
  {
    PlanWrittenOut(req, editId, versionCode);
    assert UploadRequest(req, editId).UploadApk? || UploadRequest(req, editId).UploadBundle?;
  }

  /** The plan holds no delete. */
  lemma PlanHasNoDelete(req: SingleAppRequest, editId: string, versionCode: int)
    ensures Plan(req, editId, versionCode) != [] && DeleteFree(Plan(req, editId, versionCode))
  {
    PlanWrittenOut(req, editId, versionCode);
    assert UploadRequest(req, editId).UploadApk? || UploadRequest(req, editId).UploadBundle?;
  }

  /** `publishSingleApp` is the flat reference: nesting the steps in a `try` block changes nothing. */
  lemma SingleAppTraceIsReference(req: SingleAppRequest, replies: nat -> Reply, start: nat)
    ensures SingleAppTrace(req, replies, start) == ReferenceTrace(req, replies, start)
  {
    var plan := PlanFor(req, replies, start);
    var created := replies(start);
    if created.Ok? {
      var editId := created.editId;
      var uploaded := replies(start + 1);
      StepSucceeds(plan, replies, start);
      var tail := plan[1..];
      assert tail == [UploadRequest(req, editId)] + StepsAfterUpload(req, editId, VersionCodeOf(uploaded));
      if uploaded.Ok? {
        StepSucceeds(tail, replies, start + 1);
        assert tail[1..] == StepsAfterUpload(req, editId, uploaded.versionCode);
      } else {
        StepFails(tail, replies, start + 1);
      }
      var run := RunUntilFailure(plan, replies, start);
      var attempt := TryBlock(req, editId, replies, start + 1);
      assert run.events == [Event(InsertEdit(req.packageName), created)] + attempt.events;
    } else {
      StepFails(plan, replies, start);
    }
  }

  /** A compensated run consumes the replies in order and makes the steps in order, all but a final delete. */
  lemma CompensatedFollowsSteps(steps: seq<Request>, delete: Request, replies: nat -> Reply, start: nat)
    requires steps != [] && DeleteFree(steps) && delete.DeleteEdit?
    ensures var t := Compensated(steps, delete, replies, start);
      && 1 <= |t.events|
      && (forall i :: 0 <= i < |t.events| ==> t.events[i].reply == replies(start + i))
      && NoDelete(t.events[..|t.events| - 1])
      && forall i :: 0 <= i < |t.events| && !t.events[i].request.DeleteEdit? ==>
           i < |steps| && t.events[i].request == steps[i] && AllOk(t.events[..i])
  {
    RunFollowsSteps(steps, replies, start);
    RunStopsAtFailure(steps, replies, start);
    var run := RunUntilFailure(steps, replies, start);
    var t := Compensated(steps, delete, replies, start);
    assert t.events[..|run.events|] == run.events;
    forall i | 0 <= i < |t.events| && !t.events[i].request.DeleteEdit?
      ensures i < |run.events| && AllOk(t.events[..i])
    {
    }
  }

  /** A compensated run succeeds exactly when every call succeeded, and then it made every step. */
  lemma CompensatedSuccess(steps: seq<Request>, delete: Request, replies: nat -> Reply, start: nat)
    requires steps != [] && DeleteFree(steps) && delete.DeleteEdit?
    ensures var t := Compensated(steps, delete, replies, start);
      && (t.outcome == Pass <==> AllOk(t.events))
      && (t.outcome == Pass ==> |t.events| == |steps| && NoDelete(t.events))
  {
    RunFollowsSteps(steps, replies, start);
    RunStopsAtFailure(steps, replies, start);
    var run := RunUntilFailure(steps, replies, start);
    var t := Compensated(steps, delete, replies, start);
    if run.caught.Some? {
      assert t.events[|run.events| - 1] == run.events[|run.events| - 1];
    }
  }

  /**
   * A compensated run whose first step succeeded and a later one failed ends
   * with the one delete, right after the failed call; the error carries the
   * failure's message as its cause and in its own message.
   */
  lemma CompensatedFailure(steps: seq<Request>, delete: Request, replies: nat -> Reply, start: nat)
    requires steps != [] && replies(start).Ok?
    ensures var t := Compensated(steps, delete, replies, start);
      var n := |t.events|;
      t.outcome.Fail? ==>
        && 3 <= n <= |steps| + 1
        && (forall i :: 0 <= i < n - 2 ==> t.events[i].reply.Ok?)
        && t.events[n - 2].reply.Failed?
        && t.events[n - 1].request == delete
        && var cause := t.events[n - 2].reply.message;
           var deletion := t.events[n - 1].reply;
           t.outcome.error == IOException(FailureMessage(cause, deletion), Some(ServiceException(cause)))
  {
    RunFollowsSteps(steps, replies, start);
    RunStopsAtFailure(steps, replies, start);
    var run := RunUntilFailure(steps, replies, start);
    var t := Compensated(steps, delete, replies, start);
    if run.caught.Some? {
      assert |run.events| >= 2 by {
        assert run.events[0] == Event(steps[0], replies(start));
      }
      assert t.events[..|run.events|] == run.events;
    }
  }

  /**
   * Every call of the transaction other than a delete is the call the plan
   * makes at that position, and is made only after every earlier call
   * succeeded; a delete can only be the last call; the `i`-th call gets the
   * service's reply `start + i`.
   */
  lemma CallsFollowPlan(req: SingleAppRequest, replies: nat -> Reply, start: nat)
    ensures var t := SingleAppTrace(req, replies, start);
      var plan := PlanFor(req, replies, start);
      && 1 <= |t.events|
      && (forall i :: 0 <= i < |t.events| ==> t.events[i].reply == replies(start + i))
      && NoDelete(t.events[..|t.events| - 1])
      && forall i :: 0 <= i < |t.events| && !t.events[i].request.DeleteEdit? ==>
           i < |plan| && t.events[i].request == plan[i] && AllOk(t.events[..i])
  {
    SingleAppTraceIsReference(req, replies, start);
    PlanHasNoDelete(req, EditIdOf(replies(start)), VersionCodeOf(replies(start + 1)));
    CompensatedFollowsSteps(PlanFor(req, replies, start), DeleteEdit(req.packageName, EditIdOf(replies(start))),
                            replies, start);
  }

  /**
   * The transaction succeeds exactly when every call it made succeeded, and
   * then it made the whole plan, in order, with the edit id of the insert and
   * the version code of the upload, and deleted nothing.
   */
  lemma SuccessIffAllCallsSucceed(req: SingleAppRequest, replies: nat -> Reply, start: nat)
    ensures var t := SingleAppTrace(req, replies, start);
      && (t.outcome == Pass <==> AllOk(t.events))
      && (t.outcome == Pass ==>
            && |t.events| == |PlanFor(req, replies, start)|
            && (forall i :: 0 <= i < |t.events| ==> t.events[i].request == PlanFor(req, replies, start)[i])
            && NoDelete(t.events))
  {
    SingleAppTraceIsReference(req, replies, start);
    PlanHasNoDelete(req, EditIdOf(replies(start)), VersionCodeOf(replies(start + 1)));
    CompensatedSuccess(PlanFor(req, replies, start), DeleteEdit(req.packageName, EditIdOf(replies(start))),
                       replies, start);
    CallsFollowPlan(req, replies, start);
  }

  /** A failed insert ends the transaction at once: no other call, no delete, the service's error as it is. */
  lemma EditCreationFailureIsTerminal(req: SingleAppRequest, replies: nat -> Reply, start: nat)
    requires replies(start).Failed?
    ensures var t := SingleAppTrace(req, replies, start);
      && t.events == [Event(InsertEdit(req.packageName), replies(start))]
      && t.outcome == Fail(ServiceException(replies(start).message))
  {
  }

  /**
   * A failure after the edit exists: the calls up to it follow the plan,
   * every one before it succeeded, it is followed by exactly one call, the
   * delete of that edit, and the error reported is an `IOException` carrying
   * the original failure as its cause and in its message, with the delete's
   * own failure appended only when the delete failed.
   */
  lemma FailureAfterEditIsCompensated(req: SingleAppRequest, replies: nat -> Reply, start: nat)
    requires replies(start).Ok?
    ensures var t := SingleAppTrace(req, replies, start);
      var n := |t.events|;
      t.outcome.Fail? ==>
        && 3 <= n <= |PlanFor(req, replies, start)| + 1
        && (forall i :: 0 <= i < n - 1 ==> t.events[i].request == PlanFor(req, replies, start)[i])
        && (forall i :: 0 <= i < n - 2 ==> t.events[i].reply.Ok?)
        && t.events[n - 2].reply.Failed?
        && t.events[n - 1].request == DeleteEdit(req.packageName, replies(start).editId)
        && NoDelete(t.events[..n - 1])
        && var cause := t.events[n - 2].reply.message;
           var deletion := t.events[n - 1].reply;
           t.outcome.error == IOException(FailureMessage(cause, deletion), Some(ServiceException(cause)))
  {
    var t := SingleAppTrace(req, replies, start);
    SingleAppTraceIsReference(req, replies, start);
    CompensatedFailure(PlanFor(req, replies, start), DeleteEdit(req.packageName, EditIdOf(replies(start))),
                       replies, start);
    CallsFollowPlan(req, replies, start);
    forall i | 0 <= i < |t.events| - 1
      ensures !t.events[i].request.DeleteEdit?
    {
      assert t.events[..|t.events| - 1][i] == t.events[i];
    }
  }

  /** The service's replies are consumed in order: the `i`-th call of the transaction gets reply `start + i`. */
  lemma RepliesInOrder(req: SingleAppRequest, replies: nat -> Reply, start: nat)
    ensures var t := SingleAppTrace(req, replies, start);
      forall i :: 0 <= i < |t.events| ==> t.events[i].reply == replies(start + i)
  {
    CallsFollowPlan(req, replies, start);
  }

  /** The delete is the compensation of a failure: on success, or when the insert failed, nothing is deleted. */
  lemma DeleteOnlyAfterFailureAfterEdit(req: SingleAppRequest, replies: nat -> Reply, start: nat)
    ensures var t := SingleAppTrace(req, replies, start);
      !NoDelete(t.events) <==> replies(start).Ok? && t.outcome.Fail?
  {
    var t := SingleAppTrace(req, replies, start);
    SuccessIffAllCallsSucceed(req, replies, start);
    if replies(start).Ok? {
      FailureAfterEditIsCompensated(req, replies, start);
      if t.outcome.Fail? {
        assert t.events[|t.events| - 1].request.DeleteEdit?;
      }
    }
  }

  /** The commit is made only after every earlier call succeeded, and the track is updated just before it. */
  lemma CommitOnlyAfterSuccess(req: SingleAppRequest, replies: nat -> Reply, start: nat)
    ensures var t := SingleAppTrace(req, replies, start);
      forall i :: 0 <= i < |t.events| && t.events[i].request.CommitEdit? ==>
        && 1 <= i
        && t.events[i - 1].request.UpdateTrack?
        && AllOk(t.events[..i])
  {
    var t := SingleAppTrace(req, replies, start);
    CallsFollowPlan(req, replies, start);
    PlanEnd(req, EditIdOf(replies(start)), VersionCodeOf(replies(start + 1)));
    forall i | 0 <= i < |t.events| && t.events[i].request.CommitEdit?
      ensures 1 <= i && t.events[i - 1].request.UpdateTrack?
    {
      assert !t.events[i - 1].request.DeleteEdit? by {
        assert t.events[..|t.events| - 1][i - 1] == t.events[i - 1];
      }
    }
  }

  /** The upload goes to `apks()` for an APK and to `bundles()` for a bundle, in the created edit. */
  lemma UploadTarget(req: SingleAppRequest, replies: nat -> Reply, start: nat)
    requires replies(start).Ok?
    ensures var t := SingleAppTrace(req, replies, start);
      var editId := replies(start).editId;
      && |t.events| >= 2
      && t.events[1].request == (if req.fileType.APK?
                                 then UploadApk(req.packageName, editId, FileContent(MimeTypeApk, req.appFile))
                                 else UploadBundle(req.packageName, editId, FileContent(MimeTypeAab, req.appFile)))
  {
    var t := SingleAppTrace(req, replies, start);
    CallsFollowPlan(req, replies, start);
    PlanStart(req, EditIdOf(replies(start)), VersionCodeOf(replies(start + 1)));
    SuccessIffAllCallsSucceed(req, replies, start);
    FailureAfterEditIsCompensated(req, replies, start);
    assert !t.events[1].request.DeleteEdit? by {
      assert t.events[..|t.events| - 1][1] == t.events[1];
    }
  }

  /**
   * A mapping upload happens only when there is a mapping file, as a
   * "proguard" file tagged with the version code the artifact upload returned.
   */
  lemma MappingTaggedWithVersionCode(req: SingleAppRequest, replies: nat -> Reply, start: nat)
    ensures var t := SingleAppTrace(req, replies, start);
      forall i :: 0 <= i < |t.events| && t.events[i].request.UploadDeobfuscationFile? ==>
        && i == 2
        && req.mappingFile.Some?
        && t.events[1].reply.Ok?
        && t.events[i].request == UploadDeobfuscationFile(req.packageName, t.events[0].reply.editId,
             t.events[1].reply.versionCode, "proguard", FileContent(MimeTypeMapping, req.mappingFile.value))
  {
    var t := SingleAppTrace(req, replies, start);
    CallsFollowPlan(req, replies, start);
    PlanStart(req, EditIdOf(replies(start)), VersionCodeOf(replies(start + 1)));
    forall i | 0 <= i < |t.events| && t.events[i].request.UploadDeobfuscationFile?
      ensures i == 2 && t.events[1].reply.Ok? && t.events[0].reply.Ok?
    {
      assert t.events[..i][0] == t.events[0] && t.events[..i][1] == t.events[1];
    }
  }

  /**
   * The track update submits the track by name with exactly one release:
   * the version name, the status, the one version code the upload returned,
   * the country targeting and the release notes.
   */
  lemma TrackCarriesOneRelease(req: SingleAppRequest, replies: nat -> Reply, start: nat)
    ensures var t := SingleAppTrace(req, replies, start);
      forall i :: 0 <= i < |t.events| && t.events[i].request.UpdateTrack? ==>
        && i >= 2
        && t.events[1].reply.Ok?
        && t.events[i].request.trackName == req.trackName
        && t.events[i].request.track == Track(req.trackName, [
             TrackRelease(req.versionName, TrackStatuses.Name(req.trackStatus), [t.events[1].reply.versionCode],
                          req.countryTargeting, req.releaseNotes)])
  {
    var t := SingleAppTrace(req, replies, start);
    CallsFollowPlan(req, replies, start);
    PlanEnd(req, EditIdOf(replies(start)), VersionCodeOf(replies(start + 1)));
    forall i | 0 <= i < |t.events| && t.events[i].request.UpdateTrack?
      ensures i >= 2 && t.events[1].reply.Ok?
    {
      assert t.events[..i][1] == t.events[1];
    }
  }
}
