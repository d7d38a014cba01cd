/** The converter's session as a value: the six state cells of the component
    and, for each handler, the state it leaves behind. The class in
    media_converter.dfy is specified by these functions; the lemmas here state
    what the handlers guarantee. */
module Session {
  import opened FormatCatalog
  import opened FileNames

  datatype Option<T> = None | Some(value: T)

  /** A file handed over by the file picker. Its bytes are opaque. */
  datatype SourceFile = SourceFile(name: string, size: nat, content: seq<int>)

  /** A produced blob: its bytes and its MIME type. */
  datatype Blob = Blob(bytes: seq<int>, mimeType: string)

  /** What a download hands to the browser: the file name and the blob. */
  datatype Artifact = Artifact(fileName: string, blob: Blob)

  /** The six state cells: no mode and no file stand for the component's
      `null`, no format for its empty string. */
  datatype Session = Session(
    mode: Option<Mode>,
    selectedFormat: string,
    file: Option<SourceFile>,
    converting: bool,
    converted: bool,
    convertedBlob: Option<Blob>)

  /** What holds between any two handler calls. Conversion is atomic here, so
      none is ever in flight between handlers. */
  predicate Inv(s: Session)
  {
    && (s.converted <==> s.convertedBlob.Some?)
    && !s.converting
    && (s.selectedFormat != "" ==> s.mode.Some? && s.selectedFormat in FormatsFor(s.mode.value))
    && (s.converted ==>
          && s.file.Some?
          && s.selectedFormat != ""
          && s.convertedBlob.value.bytes == s.file.value.content
          && MimePrefix(s.mode.value) <= s.convertedBlob.value.mimeType)
  }

  /** The state the component starts in. */
  function Initial(): (s: Session)
    ensures Inv(s)
    ensures s.mode.None? && s.file.None? && !s.converted
  {
    Session(None, "", None, false, false, None)
  }

  /** Choosing audio or video: everything downstream of the mode is cleared;
      the converting flag is left alone. */
  function ModeSelected(s: Session, m: Mode): Session
  {
    s.(mode := Some(m), selectedFormat := "", file := None, converted := false, convertedBlob := None)
  }

  /** The file input changed: with no file picked nothing happens, otherwise
      the file is replaced and any result is dropped. */
  function FileSelected(s: Session, picked: Option<SourceFile>): Session
  {
    if picked.None? then s
    else s.(file := picked, converted := false, convertedBlob := None)
  }

  /** A format button was clicked: only the format changes. */
  function FormatSelected(s: Session, format: string): Session
  {
    s.(selectedFormat := format)
  }

  /** Conversion, taken as one step: without a file or a format nothing
      happens; otherwise the blob is the file's own bytes typed by the
      selected format, and the converting flag, raised during the wait, is
      lowered again. */
  function Converted(s: Session): Session
  {
    if s.file.None? || s.selectedFormat == "" then s
    else
      s.(convertedBlob := Some(Blob(s.file.value.content, MimeType(s.selectedFormat))),
         converted := true,
         converting := false)
  }

  /** The close button: every cell is set back. */
  function AfterReset(s: Session): Session
  {
    s.(mode := None, selectedFormat := "", file := None,
       converted := false, convertedBlob := None, converting := false)
  }

  /** The download handler: nothing without both a blob and a file; otherwise
      the blob under the name derived from the file's name and the format. */
  function DownloadOf(s: Session): Option<Artifact>
  {
    if s.convertedBlob.None? || s.file.None? then None
    else Some(Artifact(DownloadName(s.file.value.name, s.selectedFormat), s.convertedBlob.value))
  }

  /** The user's actions, one per state-changing handler. */
  datatype Action =
    | ChooseMode(m: Mode)
    | PickFile(picked: Option<SourceFile>)
    | ChooseFormat(format: string)
    | Convert
    | Reset

  /** When the page offers an action: a format button exists only for the
      current mode's formats, and the convert button is disabled while a
      conversion runs. The handlers themselves check nothing more. */
  predicate Enabled(s: Session, a: Action)
  {
    match a
    case ChooseFormat(format) => s.mode.Some? && format in FormatsFor(s.mode.value)
    case Convert => !s.converting
    case _ => true
  }

  function Apply(s: Session, a: Action): Session
  {
    match a
    case ChooseMode(m) => ModeSelected(s, m)
    case PickFile(picked) => FileSelected(s, picked)
    case ChooseFormat(format) => FormatSelected(s, format)
    case Convert => Converted(s)
    case Reset => AfterReset(s)
  }

  /** A sequence of actions each offered in the state it is taken in. */
  predicate ValidTrace(s: Session, actions: seq<Action>)
    decreases |actions|
  {
    actions == [] || (Enabled(s, actions[0]) && ValidTrace(Apply(s, actions[0]), actions[1..]))
  }

  function Run(s: Session, actions: seq<Action>): Session
    decreases |actions|
  {
    if actions == [] then s else Run(Apply(s, actions[0]), actions[1..])
  }

  /** Every offered action keeps the invariant. */
  lemma StepPreservesInv(s: Session, a: Action)
    requires Inv(s) && Enabled(s, a)
    ensures Inv(Apply(s, a))
  {
    if a.Convert? && s.file.Some? && s.selectedFormat != "" {
      MimeMatchesMode(s.mode.value, s.selectedFormat);
    }
  }

  /** Any offered sequence of actions keeps the invariant. */
  lemma {:induction false} TracePreservesInv(s: Session, actions: seq<Action>)
    requires Inv(s) && ValidTrace(s, actions)
    ensures Inv(Run(s, actions))
    decreases |actions|
  {
    if actions != [] {
      StepPreservesInv(s, actions[0]);
      TracePreservesInv(Apply(s, actions[0]), actions[1..]);
    }
  }

  /** From the initial state, whatever the user does, a result exists exactly
      when the component says it is converted, and then it can be downloaded
      and holds the source file's bytes. */
  lemma ReachableStates(actions: seq<Action>)
    requires ValidTrace(Initial(), actions)
    ensures var s := Run(Initial(), actions);
      && (s.converted <==> s.convertedBlob.Some?)
      && (s.converted <==> DownloadOf(s).Some?)
      && (s.converted ==> DownloadOf(s).value.blob.bytes == s.file.value.content)
  {
    TracePreservesInv(Initial(), actions);
  }

  /** Under the invariant a download yields something exactly when a result
      exists; it then carries the source bytes, a MIME type of the current
      mode, and the name derived from the current file and format. */
  lemma DownloadIffConverted(s: Session)
    requires Inv(s)
    ensures DownloadOf(s).Some? <==> s.converted
    ensures s.converted ==>
      && DownloadOf(s).value.blob.bytes == s.file.value.content
      && MimePrefix(s.mode.value) <= DownloadOf(s).value.blob.mimeType
      && DownloadOf(s).value.fileName == DownloadName(s.file.value.name, s.selectedFormat)
  {
  }

  /** Choosing a mode clears format, file and result, keeps the converting
      flag, and choosing the same mode again changes nothing more. */
  lemma ModeSelectClears(s: Session, m: Mode)
    ensures var r := ModeSelected(s, m);
      && r.mode == Some(m) && r.selectedFormat == "" && r.file.None?
      && !r.converted && r.convertedBlob.None? && r.converting == s.converting
      && DownloadOf(r).None?
      && ModeSelected(r, m) == r
  {
  }

  /** Reset restores exactly the initial state, from any state. */
  lemma ResetRestoresInitial(s: Session)
    ensures AfterReset(s) == Initial()
    ensures DownloadOf(AfterReset(s)).None?
  {
  }

  /** Reset differs from choosing a mode only in the mode it leaves and in
      lowering the converting flag. */
  lemma ResetVersusModeSelect(s: Session, m: Mode)
    ensures AfterReset(s) == ModeSelected(s, m).(mode := None, converting := false)
  {
  }

  /** Picking no file changes nothing; picking one replaces the file, drops the
      result and leaves mode, format and converting flag as they were. */
  lemma FileSelectEffect(s: Session, picked: Option<SourceFile>)
    ensures picked.None? ==> FileSelected(s, picked) == s
    ensures picked.Some? ==>
      var r := FileSelected(s, picked);
      && r.file == picked && !r.converted && r.convertedBlob.None? && DownloadOf(r).None?
      && r.mode == s.mode && r.selectedFormat == s.selectedFormat && r.converting == s.converting
  {
  }

  /** Conversion without a file or without a format is a no-op; otherwise the
      result is the source bytes passed through, typed by the format, and is
      immediately downloadable under the derived name. */
  lemma ConvertEffect(s: Session)
    ensures s.file.None? || s.selectedFormat == "" ==> Converted(s) == s
    ensures s.file.Some? && s.selectedFormat != "" ==>
      var r := Converted(s);
      && r.converted && !r.converting
      && r.convertedBlob == Some(Blob(s.file.value.content, MimeType(s.selectedFormat)))
      && DownloadOf(r) == Some(Artifact(
           DownloadName(s.file.value.name, s.selectedFormat),
           Blob(s.file.value.content, MimeType(s.selectedFormat))))
      && r.mode == s.mode && r.file == s.file && r.selectedFormat == s.selectedFormat
  {
  }

  /** Converting again with the same file and format yields the same state. */
  lemma ConvertIdempotent(s: Session)
    ensures Converted(Converted(s)) == Converted(s)
  {
  }

  /** Choosing a format touches nothing but the format: an existing result is
      kept, so the download is then named after the new format while the blob
      keeps the bytes and MIME type of the earlier conversion. */
  lemma FormatSelectKeepsResult(s: Session, format: string)
    requires Inv(s) && Enabled(s, ChooseFormat(format))
    ensures var r := FormatSelected(s, format);
      && r.selectedFormat == format
      && r.(selectedFormat := s.selectedFormat) == s
      && (r.converted <==> s.converted)
      && (s.converted ==>
            DownloadOf(r) == Some(Artifact(DownloadName(s.file.value.name, format), s.convertedBlob.value)))
  {
  }
}
