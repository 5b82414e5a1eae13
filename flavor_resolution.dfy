/**
 * What the batch publisher works out for one flavor before publishing it:
 * the file names from the configured patterns, the mapping file, the
 * country targeting, the release notes filtered by the flavor's locales, and
 * the user's answer to the confirmation prompt.
 */
module FlavorResolution {
  import opened Wrappers
  import opened Platform
  import opened Play
  import opened Files
  import opened Text
  import opened FileTypes
  import opened Configurations

  const VersionPlaceholder := "{version}"
  const FileTypePlaceholder := "{fileType}"
  const FlavorPlaceholder := "{flavor}"

  // ---------------------------------------------------------------------------
  // File names
  // ---------------------------------------------------------------------------

  /**
   * The artifact's file name: the app file pattern with every "{version}"
   * replaced by the version, then every "{fileType}" by the lower-cased file
   * type, then every "{flavor}" by the flavor.
   */
  function AppFileName(config: Configuration, flavor: string): string {
    Replace(Replace(Replace(config.appFilePattern, VersionPlaceholder, config.version),
                    FileTypePlaceholder, Lower(FileTypes.Name(config.fileType))),
            FlavorPlaceholder, flavor)
  }

  /** The package name: the package name pattern with every "{flavor}" replaced by the flavor. */
  function PackageName(config: Configuration, flavor: string): string {
    Replace(config.packageNamePattern, FlavorPlaceholder, flavor)
  }

  /** The mapping file's name: the pattern with "{version}", then "{flavor}", replaced; "{fileType}" is not. */
  function MappingFileName(pattern: string, config: Configuration, flavor: string): string {
    Replace(Replace(pattern, VersionPlaceholder, config.version), FlavorPlaceholder, flavor)
  }

  /** A pattern without placeholders names the same file for every flavor, version and file type. */
  lemma PatternsWithoutPlaceholders(config: Configuration, flavor: string)
    requires !Occurs(config.appFilePattern, VersionPlaceholder)
    requires !Occurs(config.appFilePattern, FileTypePlaceholder)
    requires !Occurs(config.appFilePattern, FlavorPlaceholder)
    requires !Occurs(config.packageNamePattern, FlavorPlaceholder)
    ensures AppFileName(config, flavor) == config.appFilePattern
    ensures PackageName(config, flavor) == config.packageNamePattern
  {
    ReplaceAbsent(config.appFilePattern, VersionPlaceholder, config.version);
    ReplaceAbsent(config.appFilePattern, FileTypePlaceholder, Lower(FileTypes.Name(config.fileType)));
    ReplaceAbsent(config.appFilePattern, FlavorPlaceholder, flavor);
    ReplaceAbsent(config.packageNamePattern, FlavorPlaceholder, flavor);
  }

  /** A mapping pattern without "{version}" and "{flavor}" is the mapping file's name, "{fileType}" or not. */
  lemma MappingPatternWithoutPlaceholders(pattern: string, config: Configuration, flavor: string)
    requires !Occurs(pattern, VersionPlaceholder) && !Occurs(pattern, FlavorPlaceholder)
    ensures MappingFileName(pattern, config, flavor) == pattern
  {
    ReplaceAbsent(pattern, VersionPlaceholder, config.version);
    ReplaceAbsent(pattern, FlavorPlaceholder, flavor);
  }

  /**
   * Every occurrence of a placeholder is rendered, not just the first: the
   * pattern "{flavor}/{flavor}" names "<flavor>/<flavor>" whatever the
   * version and file type.
   */
  lemma AppFileNameRendersEveryOccurrence(config: Configuration, flavor: string)
    requires config.appFilePattern == FlavorPlaceholder + "/" + FlavorPlaceholder
    ensures AppFileName(config, flavor) == flavor + "/" + flavor
  {
    var pattern := config.appFilePattern;
    OtherPlaceholdersAbsent(pattern);
    ReplaceAbsent(pattern, VersionPlaceholder, config.version);
    ReplaceAbsent(pattern, FileTypePlaceholder, Lower(FileTypes.Name(config.fileType)));
    ReplaceBothSides(FlavorPlaceholder, '/', flavor);
  }

  /** "{flavor}/{flavor}" holds neither "{version}" (it has no "e") nor "{fileType}" (it has no "T"). */
  lemma OtherPlaceholdersAbsent(pattern: string)
    requires pattern == FlavorPlaceholder + "/" + FlavorPlaceholder
    ensures !Occurs(pattern, VersionPlaceholder) && !Occurs(pattern, FileTypePlaceholder)
  {
    AbsentCharacter(pattern, VersionPlaceholder, 2);
    AbsentCharacter(pattern, FileTypePlaceholder, 5);
  }

  /**
   * The mapping file: none when the pattern is null or empty; otherwise the
   * named file in the base folder, and none when that is not a regular file.
   */
  function MappingFile(config: Configuration, baseFolder: Path, fs: FileSystem, flavor: string): (r: Option<Path>)
    ensures r.Some? ==> IsFile(fs, r.value)
    ensures r.None? <==>
      || config.mappingFilePattern.None?
      || config.mappingFilePattern.value == []
      || !IsFile(fs, Resolved(baseFolder, MappingFileName(config.mappingFilePattern.value, config, flavor)))
  {
    if config.mappingFilePattern.None? || config.mappingFilePattern.value == [] then None
    else
      var file := Resolved(baseFolder, MappingFileName(config.mappingFilePattern.value, config, flavor));
      if IsFile(fs, file) then Some(file) else None
  }

  // ---------------------------------------------------------------------------
  // Countries
  // ---------------------------------------------------------------------------

  /** The flavor's own country list when it has one, even an empty one, else the global list. */
  function EffectiveCountries(config: Configuration, flavor: string): seq<string> {
    if flavor in config.countriesByFlavor then config.countriesByFlavor[flavor] else config.countries
  }

  /** `getCountryTargeting`: no targeting for an empty country list, else that list without the rest of the world. */
  function CountryTargetingFor(config: Configuration, flavor: string): (r: Option<CountryTargeting>)
    ensures r.None? <==> EffectiveCountries(config, flavor) == []
    ensures r.Some? ==> r.value.countries == EffectiveCountries(config, flavor) && !r.value.includeRestOfWorld
  {
    var countries := EffectiveCountries(config, flavor);
    if countries == [] then None else Some(CountryTargeting(countries, false))
  }

  /**
   * A flavor's own country list overrides the global one, whatever the
   * global one holds; an empty list of its own means no targeting.
   */
  lemma FlavorCountriesOverride(config: Configuration, flavor: string, globalCountries: seq<string>)
    requires flavor in config.countriesByFlavor
    ensures CountryTargetingFor(config.(countries := globalCountries), flavor) == CountryTargetingFor(config, flavor)
    ensures config.countriesByFlavor[flavor] == [] ==> CountryTargetingFor(config, flavor).None?
  {
  }

  /** Without any country list in the configuration there is no targeting, as with the declared defaults. */
  lemma DefaultsTargetNoCountry(appFilePattern: string, packageNamePattern: string, fileType: FileType,
                                locales: map<string, seq<string>>, status: TrackStatuses.TrackStatus, flavor: string)
    ensures CountryTargetingFor(Defaults(appFilePattern, packageNamePattern, fileType, locales, status), flavor).None?
  {
  }

  // ---------------------------------------------------------------------------
  // Release notes
  // ---------------------------------------------------------------------------

  /** The notes in `notes` whose language is one of `locales`, in their order (`removeIf` of the others). */
  function KeepLocales(notes: seq<LocalizedText>, locales: seq<string>): (r: seq<LocalizedText>)
    ensures |r| <= |notes|
    ensures forall k :: 0 <= k < |r| ==> r[k] in notes && r[k].language in locales
    decreases |notes|
  {
    if notes == [] then []
    else (if notes[0].language in locales then [notes[0]] else []) + KeepLocales(notes[1..], locales)
  }

  /** Every note in one of the locales survives the filter. */
  lemma {:induction false} KeepLocalesComplete(notes: seq<LocalizedText>, locales: seq<string>, note: LocalizedText)
    requires note in notes && note.language in locales
    ensures note in KeepLocales(notes, locales)
    decreases |notes|
  {
    if notes[0] != note {
      assert note in notes[1..];
      KeepLocalesComplete(notes[1..], locales, note);
    }
  }

  /**
   * The filter keeps every copy of a note in the locales and no copy of any
   * other: repeated entries survive as often as they occur.
   */
  lemma {:induction false} KeepLocalesCounts(notes: seq<LocalizedText>, locales: seq<string>)
    ensures forall note ::
              multiset(KeepLocales(notes, locales))[note] == (if note.language in locales then multiset(notes)[note] else 0)
    decreases |notes|
  {
    if notes != [] {
      KeepLocalesCounts(notes[1..], locales);
      assert notes == [notes[0]] + notes[1..];
      assert multiset(notes) == multiset([notes[0]]) + multiset(notes[1..]);
      var kept := if notes[0].language in locales then [notes[0]] else [];
      assert multiset(KeepLocales(notes, locales)) == multiset(kept) + multiset(KeepLocales(notes[1..], locales));
    }
  }

  /** `a` is `b` with some elements left out, the rest in their order. */
  predicate Subsequence<T(==)>(a: seq<T>, b: seq<T>)
    decreases |b|
  {
    if a == [] then true
    else if b == [] then false
    else (a[0] == b[0] && Subsequence(a[1..], b[1..])) || Subsequence(a, b[1..])
  }

  /** The filter keeps the surviving notes in their original relative order. */
  lemma {:induction false} KeepLocalesInOrder(notes: seq<LocalizedText>, locales: seq<string>)
    ensures Subsequence(KeepLocales(notes, locales), notes)
    decreases |notes|
  {
    if notes != [] {
      KeepLocalesInOrder(notes[1..], locales);
      var rest := KeepLocales(notes[1..], locales);
      if notes[0].language in locales {
        assert KeepLocales(notes, locales) == [notes[0]] + rest;
        assert ([notes[0]] + rest)[1..] == rest;
      } else {
        assert KeepLocales(notes, locales) == rest;
        if rest != [] {
          assert Subsequence(rest, notes[1..]);
        }
      }
    }
  }

  /** Filtering twice by the same locales is filtering once. */
  lemma {:induction false} KeepLocalesIdempotent(notes: seq<LocalizedText>, locales: seq<string>)
    ensures KeepLocales(KeepLocales(notes, locales), locales) == KeepLocales(notes, locales)
    decreases |notes|
  {
    if notes != [] {
      KeepLocalesIdempotent(notes[1..], locales);
      var rest := KeepLocales(notes[1..], locales);
      if notes[0].language in locales {
        var kept := [notes[0]] + rest;
        assert KeepLocales(notes, locales) == kept;
        assert kept != [] && kept[0] == notes[0] && kept[1..] == rest;
        calc {
          KeepLocales(kept, locales);
          [kept[0]] + KeepLocales(kept[1..], locales);
          [notes[0]] + KeepLocales(rest, locales);
        }
      } else {
        assert KeepLocales(notes, locales) == [] + rest;
        assert [] + rest == rest;
      }
    }
  }

  /** With every language among the locales, nothing is removed. */
  lemma {:induction false} KeepLocalesAll(notes: seq<LocalizedText>, locales: seq<string>)
    requires forall k :: 0 <= k < |notes| ==> notes[k].language in locales
    ensures KeepLocales(notes, locales) == notes
    decreases |notes|
  {
    if notes != [] {
      KeepLocalesAll(notes[1..], locales);
      assert [notes[0]] + notes[1..] == notes;
    }
  }

  /** The notes file of a flavor: its own when it has one, else the global one, in the base folder. */
  function ReleaseNotesFile(config: Configuration, baseFolder: Path, flavor: string): Path {
    Resolved(baseFolder, if flavor in config.releaseNotesByFlavor then config.releaseNotesByFlavor[flavor]
                         else config.releaseNotes)
  }

  /**
   * A flavor's own notes file overrides the global one, whatever the global
   * one is, so its notes do not depend on `releaseNotes`; a flavor without
   * one reads the global file.
   */
  lemma FlavorNotesFileOverride(config: Configuration, baseFolder: Path, fs: FileSystem, flavor: string, globalNotes: string)
    ensures flavor in config.releaseNotesByFlavor ==>
      ReleaseNotesFile(config.(releaseNotes := globalNotes), baseFolder, flavor) == ReleaseNotesFile(config, baseFolder, flavor)
        == Resolved(baseFolder, config.releaseNotesByFlavor[flavor])
    ensures flavor in config.releaseNotesByFlavor ==>
      ReleaseNotesFor(config.(releaseNotes := globalNotes), baseFolder, fs, flavor) == ReleaseNotesFor(config, baseFolder, fs, flavor)
    ensures flavor !in config.releaseNotesByFlavor ==> ReleaseNotesFile(config, baseFolder, flavor) == Resolved(baseFolder, config.releaseNotes)
  {
  }

  /**
   * `getReleaseNotes`: the notes file's entries in the flavor's locales. A
   * file that cannot be read or parsed is an error; a flavor without a
   * locale list dereferences `null` as soon as there is an entry to test.
   */
  function ReleaseNotesFor(config: Configuration, baseFolder: Path, fs: FileSystem, flavor: string)
    : (r: Result<seq<LocalizedText>, Exception>)
    ensures var file := ReleaseNotesFile(config, baseFolder, flavor);
      r.Success? <==> IsFile(fs, file) && file in fs.releaseNotesJson && (flavor in config.locales || fs.releaseNotesJson[file] == [])
    ensures var file := ReleaseNotesFile(config, baseFolder, flavor);
      !(IsFile(fs, file) && file in fs.releaseNotesJson) ==>
        r == Failure(FileNotFound(file)) || r == Failure(MalformedJson(file))
    ensures var file := ReleaseNotesFile(config, baseFolder, flavor);
      IsFile(fs, file) && file in fs.releaseNotesJson && flavor !in config.locales && fs.releaseNotesJson[file] != [] ==>
        r == Failure(NullPointerException("locales"))
  {
    var read := ReadReleaseNotesJson(fs, ReleaseNotesFile(config, baseFolder, flavor));
    if read.Failure? then Failure(read.error)
    else if flavor !in config.locales then
      if read.value == [] then Success([]) else Failure(NullPointerException("locales"))
    else Success(KeepLocales(read.value, config.locales[flavor]))
  }

  /**
   * The notes a flavor gets: exactly the entries of its notes file (its own
   * file taking precedence over the global one) whose language is in its
   * locales, in file order, each as many times as the file lists it.
   */
  lemma ReleaseNotesForFlavor(config: Configuration, baseFolder: Path, fs: FileSystem, flavor: string)
    requires flavor in config.locales
    ensures var file := ReleaseNotesFile(config, baseFolder, flavor);
      var r := ReleaseNotesFor(config, baseFolder, fs, flavor);
      && (r.Success? <==> file in fs.files && file in fs.releaseNotesJson)
      && (r.Success? ==>
            && Subsequence(r.value, fs.releaseNotesJson[file])
            && (forall note :: note in r.value <==>
                  note in fs.releaseNotesJson[file] && note.language in config.locales[flavor])
            && forall note :: multiset(r.value)[note] ==
                 (if note.language in config.locales[flavor] then multiset(fs.releaseNotesJson[file])[note] else 0))
  {
    var file := ReleaseNotesFile(config, baseFolder, flavor);
    if file in fs.files && file in fs.releaseNotesJson {
      var notes := fs.releaseNotesJson[file];
      var locales := config.locales[flavor];
      KeepLocalesInOrder(notes, locales);
      KeepLocalesCounts(notes, locales);
      forall note | note in notes && note.language in locales
        ensures note in KeepLocales(notes, locales)
      {
        KeepLocalesComplete(notes, locales, note);
      }
    }
  }

  /** A flavor without a locale list fails exactly when its notes file has entries. */
  lemma MissingLocalesFail(config: Configuration, baseFolder: Path, fs: FileSystem, flavor: string)
    requires flavor !in config.locales
    ensures var file := ReleaseNotesFile(config, baseFolder, flavor);
      file in fs.files && file in fs.releaseNotesJson ==>
        (ReleaseNotesFor(config, baseFolder, fs, flavor).Failure? <==> fs.releaseNotesJson[file] != [])
  {
  }

  // ---------------------------------------------------------------------------
  // Confirmation
  // ---------------------------------------------------------------------------

  /** The answer to the prompt, and the position in the console input after it. */
  datatype Decision = Decision(proceed: bool, next: nat)

  /**
   * `confirm` reading the console input `answers` from position `pos`: each
   * prompt reads one character; "N" (either case) declines, "Y" (either case)
   * prompts again, anything else, and the end of the input, proceeds.
   */
  function Confirmation(answers: seq<char>, pos: nat): (d: Decision)
    ensures pos <= d.next
    ensures d.next <= |answers| || d.next == pos
    decreases |answers| - pos
  {
    if pos >= |answers| then Decision(true, pos)
    else
      var answer := UpperChar(answers[pos]);
      if answer == 'N' then Decision(false, pos + 1)
      else if answer != 'Y' then Decision(true, pos + 1)
      else Confirmation(answers, pos + 1)
  }

  /** The user declines exactly when, after some "Y" answers, the next answer is "N". */
  lemma {:induction false} DeclineIff(answers: seq<char>, pos: nat)
    ensures !Confirmation(answers, pos).proceed <==>
      exists j :: pos <= j < |answers| && UpperChar(answers[j]) == 'N' &&
        forall k :: pos <= k < j ==> UpperChar(answers[k]) == 'Y'
    decreases |answers| - pos
  {
    if pos < |answers| {
      var answer := UpperChar(answers[pos]);
      if answer == 'Y' {
        DeclineIff(answers, pos + 1);
        if !Confirmation(answers, pos).proceed {
          var j :| pos + 1 <= j < |answers| && UpperChar(answers[j]) == 'N' &&
            forall k :: pos + 1 <= k < j ==> UpperChar(answers[k]) == 'Y';
          assert forall k :: pos <= k < j ==> UpperChar(answers[k]) == 'Y';
        }
      }
    }
  }

  /**
   * The confirmation consumes "Y" answers, and when it stops before the end
   * of the input it has consumed the first answer that is not "Y".
   */
  lemma {:induction false} ConfirmationConsumes(answers: seq<char>, pos: nat)
    ensures var d := Confirmation(answers, pos);
      && (forall k :: pos <= k < d.next - 1 ==> UpperChar(answers[k]) == 'Y')
      && (d.next < |answers| ==> pos < d.next && UpperChar(answers[d.next - 1]) != 'Y')
    decreases |answers| - pos
  {
    if pos < |answers| && UpperChar(answers[pos]) == 'Y' {
      ConfirmationConsumes(answers, pos + 1);
    }
  }
}
