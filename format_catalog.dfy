/** The static tables of the converter: which output formats each mode offers,
    and which MIME type a produced blob carries for a given format. */
module FormatCatalog {

  /** The converter's two modes, chosen on the start screen. */
  datatype Mode = Audio | Video

  /** The format buttons offered in audio mode, in display order. */
  const AudioFormats: seq<string> := ["mp3", "wav", "ogg", "aac", "m4a", "flac"]

  /** The format buttons offered in video mode, in display order. */
  const VideoFormats: seq<string> := ["mp4", "webm", "avi", "mov", "mkv"]

  /** The MIME type used for any format the table does not know. */
  const OctetStream: string := "application/octet-stream"

  /** The format-to-MIME table consulted when a converted blob is built. */
  const MimeTypes: map<string, string> := map[
    "mp3" := "audio/mpeg",
    "wav" := "audio/wav",
    "ogg" := "audio/ogg",
    "aac" := "audio/aac",
    "m4a" := "audio/mp4",
    "flac" := "audio/flac",
    "mp4" := "video/mp4",
    "webm" := "video/webm",
    "avi" := "video/x-msvideo",
    "mov" := "video/quicktime",
    "mkv" := "video/x-matroska"
  ]

  /** The top-level MIME type every format of a mode belongs to. */
  function MimePrefix(m: Mode): string
  {
    match m
    case Audio => "audio/"
    case Video => "video/"
  }

  /** The format list shown for a mode: the audio list in audio mode, the video list otherwise. */
  function FormatsFor(m: Mode): (r: seq<string>)
    ensures |r| > 0
    ensures forall i, j :: 0 <= i < j < |r| ==> r[i] != r[j]
  {
    if m == Audio then AudioFormats else VideoFormats
  }

  /** Table lookup with a fallback: a known format yields its registered type,
      anything else (including the empty string) the generic binary type.
      Every registered type is non-empty, so the fallback is taken exactly for
      unknown formats. */
  function MimeType(format: string): (r: string)
    ensures format in MimeTypes ==> r == MimeTypes[format]
    ensures r == OctetStream <==> format !in MimeTypes
    ensures r != ""
  {
    if format in MimeTypes && MimeTypes[format] != "" then MimeTypes[format] else OctetStream
  }

  /** The registered type of each of the eleven known formats. */
  lemma MimeTypeTable()
    ensures MimeType("mp3") == "audio/mpeg" && MimeType("wav") == "audio/wav"
    ensures MimeType("ogg") == "audio/ogg" && MimeType("aac") == "audio/aac"
    ensures MimeType("m4a") == "audio/mp4" && MimeType("flac") == "audio/flac"
    ensures MimeType("mp4") == "video/mp4" && MimeType("webm") == "video/webm"
    ensures MimeType("avi") == "video/x-msvideo" && MimeType("mov") == "video/quicktime"
    ensures MimeType("mkv") == "video/x-matroska"
  {
  }

  /** Every format offered in a mode has a registered (non-fallback) type
      belonging to that mode's top-level type. */
  lemma MimeMatchesMode(m: Mode, format: string)
    requires format in FormatsFor(m)
    ensures format in MimeTypes
    ensures MimeType(format) != OctetStream
    ensures MimePrefix(m) <= MimeType(format)
  {
    var i :| 0 <= i < |FormatsFor(m)| && FormatsFor(m)[i] == format;
    match m
    case Audio =>
      assert i == 0 || i == 1 || i == 2 || i == 3 || i == 4 || i == 5;
    case Video =>
      assert i == 0 || i == 1 || i == 2 || i == 3 || i == 4;
  }

  /** No format is offered in both modes. */
  lemma FormatListsDisjoint(format: string)
    ensures !(format in AudioFormats && format in VideoFormats)
  {
    if format in AudioFormats {
      MimeMatchesMode(Audio, format);
      if format in VideoFormats {
        MimeMatchesMode(Video, format);
      }
    }
  }

  /** The table knows exactly the formats the two lists offer, no more and no fewer. */
  lemma TableCoversCatalog(format: string)
    ensures format in MimeTypes <==> format in AudioFormats || format in VideoFormats
  {
    if format in AudioFormats {
      MimeMatchesMode(Audio, format);
    } else if format in VideoFormats {
      MimeMatchesMode(Video, format);
    }
  }
}
