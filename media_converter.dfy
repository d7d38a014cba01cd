/** The converter component: six mutable state cells and the handlers that
    update them. Each handler is specified by the matching transition of the
    Session module and keeps the session invariant. */
module Controller {
  import opened FormatCatalog
  import opened FileNames
  import opened Session

  class MediaConverter {
    var mode: Option<Mode>
    var selectedFormat: string
    var file: Option<SourceFile>
    var converting: bool
    var converted: bool
    var convertedBlob: Option<Blob>

    /** The cells read together as a session value. */
    function State(): Session
      reads this
    {
      Session(mode, selectedFormat, file, converting, converted, convertedBlob)
    }

    ghost predicate Valid()
      reads this
    {
      Inv(State())
    }

    /** The component as first rendered. */
    constructor ()
      ensures State() == Initial() && Valid()
    {
      mode := None;
      selectedFormat := "";
      file := None;
      converting := false;
      converted := false;
      convertedBlob := None;
    }

    /** handleModeSelect */
    method SelectMode(m: Mode)
      requires Valid()
      modifies this
      ensures State() == ModeSelected(old(State()), m)
      ensures Valid()
    {
      ghost var before := State();
      mode := Some(m);
      selectedFormat := "";
      file := None;
      converted := false;
      convertedBlob := None;
      StepPreservesInv(before, ChooseMode(m));
    }

    /** handleFileSelect: `picked` is the first file of the input, if any. */
    method SelectFile(picked: Option<SourceFile>)
      requires Valid()
      modifies this
      ensures State() == FileSelected(old(State()), picked)
      ensures Valid()
    {
      ghost var before := State();
      if picked.Some? {
        file := picked;
        converted := false;
        convertedBlob := None;
      }
      StepPreservesInv(before, PickFile(picked));
    }

    /** A format button's click handler; only the current mode's formats have buttons. */
    method SelectFormat(format: string)
      requires Valid()
      requires mode.Some? && format in FormatsFor(mode.value)
      modifies this
      ensures State() == FormatSelected(old(State()), format)
      ensures Valid()
    {
      ghost var before := State();
      selectedFormat := format;
      StepPreservesInv(before, ChooseFormat(format));
    }

    /** handleConvert, with the wait between raising and lowering the
        converting flag taken as a single step. */
    method Convert()
      requires Valid()
      modifies this
      ensures State() == Converted(old(State()))
      ensures Valid()
    {
      ghost var before := State();
      if file.None? || selectedFormat == "" {
        return;
      }
      converting := true;
      var blob := Blob(file.value.content, MimeType(selectedFormat));
      convertedBlob := Some(blob);
      converted := true;
      converting := false;
      StepPreservesInv(before, Action.Convert);
    }

    /** handleReset */
    method Reset()
      requires Valid()
      modifies this
      ensures State() == AfterReset(old(State())) == Initial()
      ensures Valid()
    {
      mode := None;
      selectedFormat := "";
      file := None;
      converted := false;
      convertedBlob := None;
      converting := false;
    }

    /** handleDownload, up to the point where the blob and its name are handed
        to the browser; `None` when its guard returns early. */
    method Download() returns (r: Option<Artifact>)
      ensures r == DownloadOf(State())
      ensures Valid() ==> (r.Some? <==> converted)
    {
      if convertedBlob.None? || file.None? {
        return None;
      }
      var name := file.value.name;
      var baseName := Substring(name, 0, LastIndexOf(name, '.'));
      r := Some(Artifact(baseName + "." + selectedFormat, convertedBlob.value));
    }
  }
}
