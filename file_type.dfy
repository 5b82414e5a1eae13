/** The kinds of artifact that can be published, and the MIME type each is uploaded with. */
module FileTypes {
  import Text

  datatype FileType = APK | AAB

  const MimeTypeAab := "application/octet-stream"
  const MimeTypeApk := "application/vnd.android.package-archive"

  /** The `mimeType` field of each constant. */
  function MimeType(fileType: FileType): string {
    match fileType
    case APK => MimeTypeApk
    case AAB => MimeTypeAab
  }

  /** `fileType.name()`, which is also its JSON serialisation. */
  function Name(fileType: FileType): string {
    match fileType
    case APK => "APK"
    case AAB => "AAB"
  }

  /** The MIME types of the two kinds, which differ. */
  lemma MimeTypes()
    ensures MimeType(APK) == "application/vnd.android.package-archive"
    ensures MimeType(AAB) == "application/octet-stream"
    ensures forall a: FileType, b: FileType :: a != b ==> MimeType(a) != MimeType(b)
  {
  }

  /** The two kinds are serialised as "APK" and "AAB", and every serialised value names exactly one kind. */
  lemma NamesDistinct(fileType: FileType)
    ensures Name(APK) == "APK" && Name(AAB) == "AAB"
    ensures forall other: FileType :: Name(other) == Name(fileType) ==> other == fileType
  {
  }

  /** The lower-cased name that replaces `{fileType}` in a file-name pattern. */
  lemma LowerNames()
    ensures Text.Lower(Name(APK)) == "apk"
    ensures Text.Lower(Name(AAB)) == "aab"
  {
  }
}
