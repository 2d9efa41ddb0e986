/**
 * The `MediaType` backed enum: MIME classification, icons and labels. PHOTO
 * ('photo') is included because the media selectors compare against it; the
 * enum's `icon` and `label` have no arm for it, so for PHOTO they raise an
 * unhandled-match error, modelled as None.
 */
module MediaTypes {
  import opened Wrappers
  import opened PhpStrings

  datatype MediaType = Audio | Document | Image | Video | Photo

  /** The backing string of a case. */
  function Value(t: MediaType): string
  {
    match t
    case Audio => "audio"
    case Document => "document"
    case Image => "image"
    case Video => "video"
    case Photo => "photo"
  }

  lemma ValueInjective(a: MediaType, b: MediaType)
    requires Value(a) == Value(b)
    ensures a == b
  {
  }

  /**
   * `fromMimeType`: no MIME type is a document; otherwise the case-sensitive
   * prefixes image/, video/ and audio/ are tested in that order, and anything
   * else is a document. PHOTO is never produced.
   */
  function FromMimeType(mime: Option<string>): (t: MediaType)
    ensures t == Image <==> mime.Some? && StartsWith(mime.value, "image/")
    ensures t == Video <==> mime.Some? && StartsWith(mime.value, "video/")
    ensures t == Audio <==> mime.Some? && StartsWith(mime.value, "audio/")
    ensures t == Document <==> mime.None? || !(StartsWith(mime.value, "image/") || StartsWith(mime.value, "video/") || StartsWith(mime.value, "audio/"))
    ensures t != Photo
  {
    match mime
    case None => Document
    case Some(m) =>
      if StartsWith(m, "image/") then Image
      else if StartsWith(m, "video/") then Video
      else if StartsWith(m, "audio/") then Audio
      else Document
  }

  /** The prefix test is case-sensitive: an upper-case type is a document. */
  lemma UpperCaseMimeIsDocument()
    ensures FromMimeType(Some("IMAGE/PNG")) == Document
  {
    assert !StartsWith("IMAGE/PNG", "image/") by { assert "IMAGE/PNG"[0] != "image/"[0]; }
    assert !StartsWith("IMAGE/PNG", "video/") by { assert "IMAGE/PNG"[0] != "video/"[0]; }
    assert !StartsWith("IMAGE/PNG", "audio/") by { assert "IMAGE/PNG"[0] != "audio/"[0]; }
  }

  /** The icon name of a declared case; None (unhandled match) for PHOTO. */
  function Icon(t: MediaType): (r: Option<string>)
    ensures r.None? <==> t == Photo
  {
    match t
    case Audio => Some("speaker-wave")
    case Document => Some("document")
    case Image => Some("photo")
    case Video => Some("video-camera")
    case Photo => None
  }

  /** The (untranslated) label of a declared case, singular or plural; None for PHOTO. */
  function Label(t: MediaType, plural: bool): (r: Option<string>)
    ensures r.None? <==> t == Photo
    ensures r.Some? ==> r.value != ""
  {
    match t
    case Audio => Some(if plural then "Audios" else "Audio")
    case Document => Some(if plural then "Documents" else "Document")
    case Image => Some(if plural then "Images" else "Image")
    case Video => Some(if plural then "Videos" else "Video")
    case Photo => None
  }

  /** Every plural label is the singular one with an 's' added. */
  lemma PluralAddsS(t: MediaType)
    requires t != Photo
    ensures Label(t, true).value == Label(t, false).value + "s"
  {
  }

  /** The declared cases have pairwise different icons and labels. */
  lemma DeclaredCasesDistinguishable(a: MediaType, b: MediaType, plural: bool)
    requires a != Photo && b != Photo && a != b
    ensures Icon(a) != Icon(b) && Label(a, plural) != Label(b, plural)
  {
  }
}
