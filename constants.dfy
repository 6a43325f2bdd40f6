/** The extension lists and the retry budget of src/constants.ts. */
module Constants {
  import opened Text

  /** The suffixes treated as video assets. */
  const VIDEO_EXTENSIONS: seq<string> := [
    ".mp4", ".mov", ".avi", ".mkv", ".webm", ".wmv", ".flv", ".m4v", ".3gp", ".mts", ".ts", ".m2ts", ".mpeg", ".mpg"
  ]

  /** The still-image, camera-raw and scientific-image suffixes that open the media list. */
  const STILL_EXTENSIONS: seq<string> := [
    ".jpg", ".jpeg", ".png", ".gif", ".bmp", ".webp", ".heic",
    ".cr2", ".cr3", ".crw",
    ".fit", ".fits", ".fts", ".dcm", ".nii", ".nii.gz", ".tif", ".tiff"
  ]

  /** The suffixes treated as media assets: the still images, then every video suffix. */
  const MEDIA_EXTENSIONS: seq<string> := STILL_EXTENSIONS + VIDEO_EXTENSIONS

  /** How many times a failed upload is retried within one run, by default. */
  const POST_MAX_RETRY_COUNT: nat := 5

  /** An extension as the lists spell them: a dot, then at least one character, no
      upper-case letter. Suffix matching against a lower-cased path relies on this. */
  predicate WellFormedExtension(e: string) {
    |e| >= 2 && e[0] == '.' && IsLowerCase(e)
  }

  /** The media list is the 18 still-image suffixes followed by all the video ones,
      so every video suffix is also a media suffix. */
  lemma MediaExtensionsLayout()
    ensures |STILL_EXTENSIONS| == 18 && |MEDIA_EXTENSIONS| == 18 + |VIDEO_EXTENSIONS|
    ensures MEDIA_EXTENSIONS[..18] == STILL_EXTENSIONS
    ensures forall i :: 0 <= i < |VIDEO_EXTENSIONS| ==> MEDIA_EXTENSIONS[18 + i] == VIDEO_EXTENSIONS[i]
  {
  }

  lemma VideoExtensionsAreMedia()
    ensures forall e :: e in VIDEO_EXTENSIONS ==> e in MEDIA_EXTENSIONS
  {
  }

  predicate AllWellFormed(es: seq<string>) {
    forall i :: 0 <= i < |es| ==> WellFormedExtension(es[i])
  }

  lemma StillExtensionsWellFormed()
    ensures AllWellFormed(STILL_EXTENSIONS)
  {
  }

  lemma VideoExtensionsWellFormed()
    ensures AllWellFormed(VIDEO_EXTENSIONS)
  {
  }

  /** Every listed suffix is a dot and at least one more character, in lower case. */
  lemma ExtensionsWellFormed()
    ensures AllWellFormed(MEDIA_EXTENSIONS) && AllWellFormed(VIDEO_EXTENSIONS)
  {
    StillExtensionsWellFormed();
    VideoExtensionsWellFormed();
    MediaExtensionsLayout();
  }
}
