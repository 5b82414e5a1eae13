/**
 * `MultiApkPublisher`: publishes every flavor listed in a configuration
 * file, one after the other, each with the single-release transaction. A
 * flavor whose artifact is missing is skipped, the user may decline each
 * flavor unless the run is unattended, and a failed flavor stops the batch
 * only under `abortOnError`.
 */
module MultiApkPublishing {
  import opened Wrappers
  import opened Platform
  import opened Play
  import opened Files
  import opened Text
  import opened Configurations
  import opened Arguments
  import opened ApkPublishing
  import opened FlavorResolution

  /** What a batch run depends on besides its progress: the configuration, the folders, the files, the service's replies and the console input. */
  datatype Run = Run(config: Configuration, baseFolder: Path, fs: FileSystem, replies: nat -> Reply, answers: seq<char>)

  /** The service's log so far, and how much of the console input has been read. */
  datatype Progress = Progress(log: seq<Event>, answered: nat)

  /** One flavor done: go on with the next one, or stop the batch with an exception. */
  datatype Step = Next(progress: Progress) | Stop(error: Exception, progress: Progress)

  /** The end of a batch: every flavor handled, or stopped by an exception. */
  datatype BatchOutcome = Finished(progress: Progress) | Aborted(error: Exception, progress: Progress)

  /** The `baseFolder` the batch resolves files against: the configured folder, or the configuration file's folder for "". */
  function BaseFolderOf(config: Configuration, configFile: Path): (r: Result<Path, Exception>)
    ensures config.baseFolder.None? <==> r == Failure(NullPointerException("baseFolder"))
    ensures config.baseFolder == Some("") <==> r == Success(ParentOf(configFile))
    ensures r.Success? && config.baseFolder != Some("") ==> r.value == Given(config.baseFolder.value)
  {
    match config.baseFolder
    case None => Failure(NullPointerException("baseFolder"))
    case Some(folder) => if folder == "" then Success(ParentOf(configFile)) else Success(Given(folder))
  }

  /** The artifact of a flavor, in the base folder. */
  function AppFile(run: Run, flavor: string): Path {
    Resolved(run.baseFolder, AppFileName(run.config, flavor))
  }

  /**
   * The `publishSingleApp` call for a flavor, given its release notes: the
   * flavor is the application name and the configured version the version
   * name; a mapping file is passed only when it exists.
   */
  function FlavorRequest(run: Run, flavor: string, releaseNotes: seq<LocalizedText>): (r: SingleAppRequest)
    ensures r.applicationName == flavor && r.versionName == run.config.version
    ensures r.packageName == PackageName(run.config, flavor) && r.appFile == AppFile(run, flavor)
    ensures r.mappingFile.Some? ==> IsFile(run.fs, r.mappingFile.value)
    ensures r.countryTargeting.None? <==> EffectiveCountries(run.config, flavor) == []
    ensures r.releaseNotes == releaseNotes
    ensures r.fileType == run.config.fileType && r.trackName == run.config.track && r.trackStatus == run.config.status
  {
    var config := run.config;
    SingleAppRequest(PackageName(config, flavor), flavor, config.version, AppFile(run, flavor),
                     MappingFile(config, run.baseFolder, run.fs, flavor), CountryTargetingFor(config, flavor),
                     releaseNotes, config.fileType, config.track, config.status)
  }

  /**
   * One pass of the loop, for one flavor: skip it when its artifact is not a
   * file; resolve its notes, whose failure stops the batch whatever the
   * policy; ask the user unless unattended, and skip it when declined;
   * publish it, and stop the batch on a failure only under `abortOnError`.
   */
  function FlavorStep(run: Run, flavor: string, p: Progress): (r: Step)
    ensures !IsFile(run.fs, AppFile(run, flavor)) ==> r == Next(p)
    ensures |p.log| <= |r.progress.log| && r.progress.log[..|p.log|] == p.log && p.answered <= r.progress.answered
    ensures run.config.unattended ==> r.progress.answered == p.answered
    ensures IsFile(run.fs, AppFile(run, flavor)) && ReleaseNotesFor(run.config, run.baseFolder, run.fs, flavor).Failure? ==>
      r == Stop(ReleaseNotesFor(run.config, run.baseFolder, run.fs, flavor).error, p)
    ensures r.Stop? && r.progress.log != p.log ==> run.config.abortOnError
  {
    if !IsFile(run.fs, AppFile(run, flavor)) then Next(p)
    else
      var notes := ReleaseNotesFor(run.config, run.baseFolder, run.fs, flavor);
      if notes.Failure? then Stop(notes.error, p)
      else
        var decision := if run.config.unattended then Decision(true, p.answered) else Confirmation(run.answers, p.answered);
        var asked := p.(answered := decision.next);
        if !decision.proceed then Next(asked)
        else
          var t := SingleAppTrace(FlavorRequest(run, flavor, notes.value), run.replies, |p.log|);
          var published := asked.(log := p.log + t.events);
          assert published.log[..|p.log|] == p.log;
          if t.outcome.Fail? && run.config.abortOnError then Stop(t.outcome.error, published) else Next(published)
  }

  /** The loop over the flavors, in order, until one stops the batch. */
  function Batch(run: Run, flavors: seq<string>, p: Progress): BatchOutcome
    decreases |flavors|
  {
    if flavors == [] then Finished(p)
    else
      match FlavorStep(run, flavors[0], p)
      case Stop(error, q) => Aborted(error, q)
      case Next(q) => Batch(run, flavors[1..], q)
  }

  /**
   * A published flavor's failure stops the batch exactly when `abortOnError`
   * is set; otherwise the failure is dropped and the batch goes on.
   */
  lemma PublishFailureStopsIffAbortOnError(run: Run, flavor: string, p: Progress)
    requires IsFile(run.fs, AppFile(run, flavor))
    requires ReleaseNotesFor(run.config, run.baseFolder, run.fs, flavor).Success?
    requires run.config.unattended || Confirmation(run.answers, p.answered).proceed
    ensures var notes := ReleaseNotesFor(run.config, run.baseFolder, run.fs, flavor).value;
      var t := SingleAppTrace(FlavorRequest(run, flavor, notes), run.replies, |p.log|);
      var r := FlavorStep(run, flavor, p);
      && r.progress.log == p.log + t.events
      && (r.Stop? <==> t.outcome.Fail? && run.config.abortOnError)
      && (r.Stop? ==> r.error == t.outcome.error)
  {
  }

  /**
   * With the default `releaseNotes` of "" and no notes file of its own, a
   * flavor reads the base folder itself as its notes file; when that is not
   * a regular file, the flavor stops the batch before any prompt or call,
   * whatever `abortOnError` says.
   */
  lemma DefaultNotesPathStopsBatch(run: Run, flavor: string, p: Progress)
    requires run.config.releaseNotes == "" && flavor !in run.config.releaseNotesByFlavor
    requires IsFile(run.fs, AppFile(run, flavor)) && !IsFile(run.fs, Resolved(run.baseFolder, ""))
    ensures FlavorStep(run, flavor, p) == Stop(FileNotFound(Resolved(run.baseFolder, "")), p)
  {
  }

  /** A declined flavor is not published: only the console input moves on. */
  lemma DeclinedFlavorIsSkipped(run: Run, flavor: string, p: Progress)
    requires IsFile(run.fs, AppFile(run, flavor))
    requires ReleaseNotesFor(run.config, run.baseFolder, run.fs, flavor).Success?
    requires !run.config.unattended && !Confirmation(run.answers, p.answered).proceed
    ensures FlavorStep(run, flavor, p) == Next(Progress(p.log, Confirmation(run.answers, p.answered).next))
  {
  }

  /** Running two lists of flavors one after the other is running them joined: flavors go in list order. */
  lemma {:induction false} BatchAppend(run: Run, first: seq<string>, second: seq<string>, p: Progress)
    ensures Batch(run, first + second, p) ==
      match Batch(run, first, p)
      case Aborted(error, q) => Aborted(error, q)
      case Finished(q) => Batch(run, second, q)
    decreases |first|
  {
    if first == [] {
      assert first + second == second;
    } else {
      assert (first + second)[0] == first[0];
      assert (first + second)[1..] == first[1..] + second;
      match FlavorStep(run, first[0], p)
      case Stop(_, _) =>
      case Next(q) => BatchAppend(run, first[1..], second, q);
    }
  }

  /** Once a flavor stops the batch, none of the flavors after it runs. */
  lemma AbortSkipsRemaining(run: Run, before: seq<string>, flavor: string, after: seq<string>, p: Progress)
    requires Batch(run, before, p).Finished?
    requires FlavorStep(run, flavor, Batch(run, before, p).progress).Stop?
    ensures var stop := FlavorStep(run, flavor, Batch(run, before, p).progress);
      Batch(run, before + [flavor] + after, p) == Aborted(stop.error, stop.progress)
  {
    BatchAppend(run, before, [flavor] + after, p);
    assert before + [flavor] + after == before + ([flavor] + after);
    assert ([flavor] + after)[0] == flavor;
  }

  /** The batch only adds calls to the service's log, and only reads the console input forward. */
  lemma {:induction false} LogOnlyGrows(run: Run, flavors: seq<string>, p: Progress)
    ensures var r := Batch(run, flavors, p);
      |p.log| <= |r.progress.log| && r.progress.log[..|p.log|] == p.log && p.answered <= r.progress.answered
    decreases |flavors|
  {
    if flavors != [] {
      var step := FlavorStep(run, flavors[0], p);
      if step.Next? {
        LogOnlyGrows(run, flavors[1..], step.progress);
        var r := Batch(run, flavors[1..], step.progress);
        assert r.progress.log[..|p.log|] == r.progress.log[..|step.progress.log|][..|p.log|];
      }
    }
  }

  /** An unattended batch never reads the console. */
  lemma {:induction false} UnattendedReadsNoAnswers(run: Run, flavors: seq<string>, p: Progress)
    requires run.config.unattended
    ensures Batch(run, flavors, p).progress.answered == p.answered
    decreases |flavors|
  {
    if flavors != [] {
      var step := FlavorStep(run, flavors[0], p);
      if step.Next? {
        UnattendedReadsNoAnswers(run, flavors[1..], step.progress);
      }
    }
  }

  /**
   * Without `abortOnError`, the batch reaches its end unless the notes of a
   * flavor whose artifact exists cannot be resolved.
   */
  lemma {:induction false} NoAbortWithoutPolicy(run: Run, flavors: seq<string>, p: Progress)
    requires !run.config.abortOnError
    requires forall k :: 0 <= k < |flavors| && IsFile(run.fs, AppFile(run, flavors[k])) ==>
      ReleaseNotesFor(run.config, run.baseFolder, run.fs, flavors[k]).Success?
    ensures Batch(run, flavors, p).Finished?
    decreases |flavors|
  {
    if flavors != [] {
      var step := FlavorStep(run, flavors[0], p);
      assert step.Next?;
      forall k | 0 <= k < |flavors[1..]| && IsFile(run.fs, AppFile(run, flavors[1..][k]))
        ensures ReleaseNotesFor(run.config, run.baseFolder, run.fs, flavors[1..][k]).Success?
      {
        assert flavors[1..][k] == flavors[k + 1];
      }
      NoAbortWithoutPolicy(run, flavors[1..], step.progress);
    }
  }

  /** A flavor whose artifact is missing changes nothing: no prompt, no call, no abort. */
  lemma {:induction false} MissingArtifactsChangeNothing(run: Run, flavors: seq<string>, p: Progress)
    requires forall k :: 0 <= k < |flavors| ==> !IsFile(run.fs, AppFile(run, flavors[k]))
    ensures Batch(run, flavors, p) == Finished(p)
    decreases |flavors|
  {
    if flavors != [] {
      assert !IsFile(run.fs, AppFile(run, flavors[0]));
      forall k | 0 <= k < |flavors[1..]|
        ensures !IsFile(run.fs, AppFile(run, flavors[1..][k]))
      {
        assert flavors[1..][k] == flavors[k + 1];
      }
      MissingArtifactsChangeNothing(run, flavors[1..], p);
    }
  }

  /** With the declared defaults the flavor list is empty, so the batch publishes nothing. */
  lemma DefaultsPublishNothing(run: Run, p: Progress)
    requires run.config.flavors == Defaults(run.config.appFilePattern, run.config.packageNamePattern,
                                            run.config.fileType, run.config.locales, run.config.status).flavors
    ensures Batch(run, run.config.flavors, p) == Finished(p)
  {
  }

  /** The batch publisher: the command line names the configuration file, which `publish` reads into its fields. */
  class MultiApkPublisher {
    const arguments: CommandLineArguments
    var configuration: Option<Configuration>
    var baseFolder: Option<Path>

    constructor (arguments: CommandLineArguments)
      ensures this.arguments == arguments && configuration.None? && baseFolder.None?
    {
      this.arguments := arguments;
      configuration := None;
      baseFolder := None;
    }

    /**
     * `confirm`: prompts until an answer other than "Y" is read from
     * position `pos` of the console input; "N" declines.
     */
    method Confirm(answers: seq<char>, pos: nat) returns (proceed: bool, next: nat)
      ensures Decision(proceed, next) == Confirmation(answers, pos)
    {
      next := pos;
      while true
        invariant pos <= next <= |answers| || next == pos
        invariant Confirmation(answers, next) == Confirmation(answers, pos)
        decreases |answers| - next
      {
        if next >= |answers| {
          // at the end of the input `read()` gives -1, which is neither "N" nor "Y"
          return true, next;
        }
        var answer := UpperChar(answers[next]);
        next := next + 1;
        if answer == 'N' {
          return false, next;
        }
        if answer != 'Y' {
          return true, next;
        }
      }
    }

    /** `getReleaseNotes`: the flavor's notes file, parsed, without the entries outside the flavor's locales. */
    method GetReleaseNotes(fs: FileSystem, flavor: string) returns (r: Result<seq<LocalizedText>, Exception>)
      requires configuration.Some? && baseFolder.Some?
      ensures r == ReleaseNotesFor(configuration.value, baseFolder.value, fs, flavor)
    {
      var config := configuration.value;
      var locales := if flavor in config.locales then Some(config.locales[flavor]) else None;
      var read := ReadReleaseNotesJson(fs, ReleaseNotesFile(config, baseFolder.value, flavor));
      if read.Failure? {
        return Failure(read.error);
      }
      var releaseNotes := read.value;
      if releaseNotes != [] && locales.None? {
        // the filter tests each entry against a `null` locale array
        return Failure(NullPointerException("locales"));
      }
      if locales.Some? {
        releaseNotes := KeepLocales(releaseNotes, locales.value);
      }
      return Success(releaseNotes);
    }

    /**
     * `publish`: reads the configuration (given here already parsed, or the
     * error reading it), sets the base folder, then publishes the flavors in
     * order as `Batch` describes.
     */
    method Publish(fs: FileSystem, parsed: Result<Configuration, Exception>, service: EditsService, answers: seq<char>)
      returns (outcome: Outcome<Exception>)
      requires service.Valid()
      modifies this, service
      ensures service.Valid()
      ensures match parsed
        case Failure(e) =>
          outcome == Fail(e) && service.log == old(service.log)
          && configuration == old(configuration) && baseFolder == old(baseFolder)
        case Success(config) =>
          && configuration == Some(config)
          && match BaseFolderOf(config, Given(arguments.file))
             case Failure(e) => outcome == Fail(e) && service.log == old(service.log) && baseFolder == old(baseFolder)
             case Success(base) =>
               var r := Batch(Run(config, base, fs, service.replies, answers), config.flavors, Progress(old(service.log), 0));
               && baseFolder == Some(base)
               && service.log == r.progress.log
               && outcome == (if r.Aborted? then Fail(r.error) else Pass)
    {
      var configFile := Given(arguments.file);
      if parsed.Failure? {
        return Fail(parsed.error);
      }
      configuration := Some(parsed.value);
      var config := parsed.value;
      if config.baseFolder.None? {
        return Fail(NullPointerException("baseFolder"));
      }
      baseFolder := Some(if config.baseFolder.value == "" then ParentOf(configFile) else Given(config.baseFolder.value));
      var base := baseFolder.value;
      ghost var run := Run(config, base, fs, service.replies, answers);
      ghost var start := Progress(service.log, 0);
      var answered := 0;
      for i := 0 to |config.flavors|
        invariant configuration == Some(config) && baseFolder == Some(base)
        invariant service.Valid() && service.replies == run.replies
        invariant Batch(run, config.flavors, start) == Batch(run, config.flavors[i..], Progress(service.log, answered))
      {
        var flavor := config.flavors[i];
        ghost var p := Progress(service.log, answered);
        assert config.flavors[i..][0] == flavor && config.flavors[i..][1..] == config.flavors[i + 1..];

        var appFileName := AppFileName(config, flavor);
        var packageName := PackageName(config, flavor);
        var appFile := Resolved(base, appFileName);
        if !IsFile(fs, appFile) {
          continue;
        }
        var mappingFile := MappingFile(config, base, fs, flavor);
        var countryTargeting := CountryTargetingFor(config, flavor);
        var releaseNotes := GetReleaseNotes(fs, flavor);
        if releaseNotes.Failure? {
          return Fail(releaseNotes.error);
        }
        if !config.unattended {
          var proceed;
          proceed, answered := Confirm(answers, answered);
          if !proceed {
            continue;
          }
        }
        var request := SingleAppRequest(packageName, flavor, config.version, appFile, mappingFile, countryTargeting,
                                        releaseNotes.value, config.fileType, config.track, config.status);
        assert request == FlavorRequest(run, flavor, releaseNotes.value);
        var result := PublishSingleApp(service, request);
        if result.Fail? && config.abortOnError {
          return Fail(result.error);
        }
      }
      return Pass;
    }
  }
}
