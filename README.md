# Media converter: a Dafny model of the conversion workflow

This project models the logic of the `MediaConverter` React component in
`media_converter.tsx`. The user picks audio or video, chooses an output format
from that mode's list, picks a source file, converts it, and downloads the
result. The component does no real transcoding. A "conversion" wraps the
source file's bytes in a blob typed with the selected format's MIME type.

The model has five modules:

- `FormatCatalog` (format_catalog.dfy): the two modes, the audio and video
  format lists, and the format-to-MIME table with its
  `application/octet-stream` fallback.
- `FileNames` (file_names.dfy): JavaScript's `lastIndexOf` and `substring`,
  and the name the download handler gives the file. That name is the source
  name cut at its last `.`, then `.` and the selected format.
- `Session` (session.dfy): the six state cells as one value (`Session`), one
  transition function per handler, the invariant `Inv` that holds between
  handler calls, and user-action traces (`Action`, `Apply`, `Run`,
  `ValidTrace`). The properties of the workflow are proved here.
- `Controller` (media_converter.dfy): the class `MediaConverter`. It has the
  six cells as fields, and each handler is a method. Each method ensures that
  the new `State()` is the matching `Session` transition of the old one, and
  that `Valid()` (that is, `Inv(State())`) is kept.
- `Scenarios` (scenarios.dfy): concrete runs, plus a client method that
  drives the class.

A null mode or file is `None`. "No format" is the empty string, as in the
component. File and blob bytes are an opaque `seq<int>`.

Points where the component's behaviour may surprise a reader. The model follows
the code in each case.

- Choosing a format after a conversion does not drop the result (line 144).
  The download is then named after the new format, but the blob keeps the
  earlier MIME type (`FormatSelectKeepsResult`, `SwitchFormatAfterConversion`).
- A source name without a `.` yields an empty base name, because
  `substring(0, -1)` is `""`. So "song" converted to mp3 downloads as ".mp3"
  (`DownloadNameWithoutDot`, `NameWithoutDot`).
- The code has no failure path for a conversion. It also has no re-entrancy
  check in `handleConvert`; only the disabled button (line 207) prevents
  overlap. It does not check a chosen format against the mode's list; only the
  buttons (line 141) ensure that. These UI guards are preconditions in the
  model: `Enabled`, and `SelectFormat`'s `requires`.

## Model

| member | source | states |
|---|---|---|
| `FormatCatalog.FormatsFor` | media_converter.tsx:13-14 | each mode's format list is non-empty and has no repeated format |
| `FormatCatalog.MimeType` | media_converter.tsx:48-63 | total lookup: a known format gives its table entry; the result is `application/octet-stream` exactly when the format is not in the table; never empty |
| `FormatCatalog.MimeTypeTable` | media_converter.tsx:49-61 | the registered MIME type of each of the eleven known formats |
| `FormatCatalog.MimeMatchesMode` | media_converter.tsx:13-61 | every format offered in audio mode maps to an `audio/` type, every video format to a `video/` type, and never to the fallback |
| `FormatCatalog.FormatListsDisjoint` | media_converter.tsx:13-14 | no format is offered in both modes |
| `FormatCatalog.TableCoversCatalog` | media_converter.tsx:49-60 | the MIME table knows exactly the formats of the two lists |
| `FileNames.LastIndexOf` | media_converter.tsx:71 | `lastIndexOf('.')`: -1 exactly when there is no `.`, otherwise the index of a `.` with none after it |
| `FileNames.Substring` | media_converter.tsx:71 | `substring` returns the slice for in-range arguments and `""` when both arguments are at most 0 |
| `FileNames.DownloadName` | media_converter.tsx:71-72 | the download name ends in `.` plus the format, and what precedes that is a prefix of the source name |
| `FileNames.DownloadNameReplacesExtension` | media_converter.tsx:71-72 | for a name `base.ext` with no `.` in `ext`, the download name is `base.format` |
| `FileNames.DownloadNameWithoutDot` | media_converter.tsx:71-72 | a name with no `.` gives `.` plus the format (an empty base) |
| `FileNames.NameSplitsAtLastDot` | media_converter.tsx:71 | every name containing `.` is `base.ext` with no `.` in `ext`, so the two lemmas above cover every name |
| `FileNames.DownloadNameRenameTwice` | media_converter.tsx:71-72 | renaming with format f and then g equals renaming with g, when f has no `.` |
| `Session.Initial` | media_converter.tsx:5-10 | the initial cells satisfy the invariant and hold no mode, no file and no result |
| `Session.StepPreservesInv` | media_converter.tsx:16-86 | every handler, taken when the page offers it, keeps the invariant: converted iff a blob exists, no conversion in flight, the format belongs to the mode's list, and a result holds the file's bytes with a MIME type of the mode |
| `Session.TracePreservesInv` | media_converter.tsx:16-86 | any sequence of offered actions keeps the invariant |
| `Session.ReachableStates` | media_converter.tsx:5-86 | in every reachable state, converted iff a blob exists iff a download yields something, and a downloaded blob holds the source bytes |
| `Session.DownloadIffConverted` | media_converter.tsx:65-72 | under the invariant, download yields an artifact exactly when converted; it carries the file's bytes, a MIME type of the mode, and the name derived from the file name and the current format |
| `Session.ModeSelectClears` | media_converter.tsx:16-22 | choosing a mode clears format, file, converted and blob, leaves converting unchanged, and choosing it again changes nothing |
| `Session.ResetRestoresInitial` | media_converter.tsx:79-86 | reset from any state gives exactly the initial state, with nothing to download |
| `Session.ResetVersusModeSelect` | media_converter.tsx:79-86 | reset differs from choosing a mode only in setting mode to null and converting to false |
| `Session.FileSelectEffect` | media_converter.tsx:24-31 | no file picked is a no-op; otherwise the file is replaced, the result dropped, and mode, format and converting unchanged |
| `Session.ConvertEffect` | media_converter.tsx:33-46 | no-op without a file or a format; otherwise converted, not converting, the blob is the file's bytes typed by the format, and the download is that blob under the derived name |
| `Session.ConvertIdempotent` | media_converter.tsx:33-46 | converting twice with the same file and format gives the same state as converting once |
| `Session.FormatSelectKeepsResult` | media_converter.tsx:141-144 | choosing a format changes only the format; an existing result is kept and is then downloaded under the new format's name |
| `Controller.MediaConverter.constructor` | media_converter.tsx:5-10 | the component starts in the initial state |
| `Controller.MediaConverter.SelectMode` | media_converter.tsx:16-22 | `handleModeSelect` performs the mode transition and keeps the invariant |
| `Controller.MediaConverter.SelectFile` | media_converter.tsx:24-31 | `handleFileSelect` performs the file transition and keeps the invariant |
| `Controller.MediaConverter.SelectFormat` | media_converter.tsx:141-144 | a format button, offered only for the mode's formats, sets the format and keeps the invariant |
| `Controller.MediaConverter.Convert` | media_converter.tsx:33-46 | `handleConvert`, taken atomically, performs the conversion transition and keeps the invariant |
| `Controller.MediaConverter.Reset` | media_converter.tsx:79-86 | `handleReset` returns the component to its initial state |
| `Controller.MediaConverter.Download` | media_converter.tsx:65-77 | `handleDownload` hands over the blob under the derived name when a blob and a file exist, and nothing otherwise; in a valid state, it hands over something exactly when converted |
| `Scenarios.ConvertSongToMp3` | media_converter.tsx:16-72 | audio, mp3, "song.wav", convert: the download is "song.mp3" typed `audio/mpeg`, holding the file's bytes |
| `Scenarios.SwitchFormatAfterConversion` | media_converter.tsx:141-144 | choosing flac after that conversion is offered, keeps the result, and downloads "song.flac" with the stale `audio/mpeg` type |
| `Scenarios.ReconvertAfterSwitch` | media_converter.tsx:33-46 | converting again after switching to flac downloads "song.flac" typed `audio/flac` |
| `Scenarios.ConvertWithoutFile` | media_converter.tsx:34 | converting before a file is picked leaves the state unchanged, with nothing to download |
| `Scenarios.NameWithInnerDots` | media_converter.tsx:71-72 | "a.b.c" with mp3 keeps the base "a.b" and gives "a.b.mp3" |
| `Scenarios.NameWithoutDot` | media_converter.tsx:71-72 | "song" with mp3 gives ".mp3" |

## Left out

- Rendering, styling and icons (lines 88-251). Only the UI guards that limit
  which handler can run are kept, as the preconditions named above.
- The mode buttons appear only when no mode is chosen (line 92), and the file
  input only after a mode is chosen. The handlers do not check either condition,
  so the model lets `SelectMode` and `SelectFile` run in any state.
- The browser download mechanics (`URL.createObjectURL`, the anchor, `click`,
  `revokeObjectURL`, lines 68-76). `Download` returns the name and blob that
  would be handed over.
- The 2-second wait in `handleConvert` (line 39), and any handler that runs
  during it. The model takes conversion as one step. So `converting` is raised
  and lowered within that step, and it is false between handler calls.
- Real `Blob` construction: bytes are an opaque sequence, and the browser's
  normalisation of the blob's `type` is not modelled (every type in the table
  is already lower-case ASCII).
- The file size display in MB (line 186): floating point, presentation only.
- The `accept` filter on the file input (line 175) and `fileInputRef`: host
  concerns, not enforced by the component.
- `MimeType`: a plain map with fallback. In JavaScript, inherited keys such as
  "constructor" would find an object-prototype member instead of falling back.
- The mode is a two-valued datatype. In the component it is a string, and any
  value other than 'audio' selects the video list.
- The file name is a sequence of characters. JavaScript strings are UTF-16 code
  units; for the single '.' searched for here, the two agree.
