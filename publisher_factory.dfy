/** Chooses the publisher for the file named on the command line. */
module PublisherFactory {
  import opened Wrappers
  import opened Platform
  import opened Text

  /** The three publishers a file can be handed to. */
  datatype PublisherKind = ApkPublisher | MultiApkPublisher | AabPublisher

  /**
   * `buildPublisher`: dispatches on the suffix of the lower-cased file name;
   * any other name is an error that names the file as given.
   */
  function BuildPublisher(fileName: string): (r: Result<PublisherKind, Exception>)
    ensures r == Success(ApkPublisher) <==> EndsWith(Lower(fileName), ".apk")
    ensures r == Success(MultiApkPublisher) <==> EndsWith(Lower(fileName), ".json")
    ensures r == Success(AabPublisher) <==> EndsWith(Lower(fileName), ".aab")
    ensures r.Failure? ==> r.error == RuntimeException("File Type is not supported for: " + fileName)
  {
    var lowerFileName := Lower(fileName);
    SuffixesExclusive(lowerFileName);
    if EndsWith(lowerFileName, ".apk") then Success(ApkPublisher)
    else if EndsWith(lowerFileName, ".json") then Success(MultiApkPublisher)
    else if EndsWith(lowerFileName, ".aab") then Success(AabPublisher)
    else Failure(RuntimeException("File Type is not supported for: " + fileName))
  }

  /** A name that ends with a non-empty suffix ends with the suffix's last character. */
  lemma LastCharacter(s: string, suffix: string)
    ensures EndsWith(s, suffix) && suffix != [] ==> s[|s| - 1] == suffix[|suffix| - 1]
  {
    if EndsWith(s, suffix) && suffix != [] {
      assert s[|s| - 1] == s[|s| - |suffix|..][|suffix| - 1];
    }
  }

  /** No name ends with two of the three suffixes, so the order of the tests does not matter. */
  lemma SuffixesExclusive(s: string)
    ensures !(EndsWith(s, ".apk") && EndsWith(s, ".json"))
    ensures !(EndsWith(s, ".apk") && EndsWith(s, ".aab"))
    ensures !(EndsWith(s, ".json") && EndsWith(s, ".aab"))
  {
    LastCharacter(s, ".apk");
    LastCharacter(s, ".json");
    LastCharacter(s, ".aab");
  }

  /** Names that agree once lower-cased choose the same publisher ("X.APK" and "x.apk"). */
  lemma DispatchIgnoresCase(a: string, b: string)
    requires Lower(a) == Lower(b)
    ensures BuildPublisher(a).Success? <==> BuildPublisher(b).Success?
    ensures BuildPublisher(a).Success? ==> BuildPublisher(a) == BuildPublisher(b)
  {
  }

  /** A name is refused exactly when it ends with none of the three suffixes, e.g. "app.apk.zip". */
  lemma UnsupportedNames(fileName: string)
    ensures BuildPublisher(fileName).Failure? <==>
      !EndsWith(Lower(fileName), ".apk") && !EndsWith(Lower(fileName), ".json") && !EndsWith(Lower(fileName), ".aab")
    ensures BuildPublisher("app.apk.zip").Failure?
  {
    var z := Lower("app.apk.zip");
    assert z[|z| - 1] == 'p';
    LastCharacter(z, ".apk");
    LastCharacter(z, ".json");
    LastCharacter(z, ".aab");
  }
}
