/** Concrete runs of the converter, as the component behaves. */
module Scenarios {
  import opened FormatCatalog
  import opened FileNames
  import opened Session
  import opened Controller

  function Song(content: seq<int>): SourceFile
  {
    SourceFile("song.wav", 1000000, content)
  }

  /** The states after each step of converting "song.wav" to mp3 in audio mode. */
  function AfterMode(): Session { ModeSelected(Initial(), Audio) }
  function AfterFormat(): Session { FormatSelected(AfterMode(), "mp3") }
  function AfterFile(content: seq<int>): Session { FileSelected(AfterFormat(), Some(Song(content))) }
  function AfterConvert(content: seq<int>): Session { Converted(AfterFile(content)) }

  function SongActions(content: seq<int>): seq<Action>
  {
    [ChooseMode(Audio), ChooseFormat("mp3"), PickFile(Some(Song(content))), Action.Convert]
  }

  /** Runs `actions` after `prefix`, one step at a time. */
  lemma {:induction false} RunAppend(s: Session, prefix: seq<Action>, actions: seq<Action>)
    ensures Run(s, prefix + actions) == Run(Run(s, prefix), actions)
    ensures ValidTrace(s, prefix + actions) <==>
      ValidTrace(s, prefix) && ValidTrace(Run(s, prefix), actions)
    decreases |prefix|
  {
    if prefix != [] {
      assert (prefix + actions)[0] == prefix[0];
      assert (prefix + actions)[1..] == prefix[1..] + actions;
      RunAppend(Apply(s, prefix[0]), prefix[1..], actions);
    } else {
      assert prefix + actions == actions;
    }
  }

  lemma SongRun(content: seq<int>)
    ensures ValidTrace(Initial(), SongActions(content))
    ensures Run(Initial(), SongActions(content)) == AfterConvert(content)
  {
    var actions := SongActions(content);
    assert "mp3" == FormatsFor(Audio)[0];
    var s3, s2, s1 := actions[3..], actions[2..], actions[1..];
    assert s3[1..] == [] && s2[1..] == s3 && s1[1..] == s2 && actions[1..] == s1;
    assert Run(AfterFile(content), s3) == AfterConvert(content) && ValidTrace(AfterFile(content), s3);
    assert Run(AfterFormat(), s2) == AfterConvert(content) && ValidTrace(AfterFormat(), s2);
    assert Run(AfterMode(), s1) == AfterConvert(content) && ValidTrace(AfterMode(), s1);
  }

  /** "song.wav" is renamed by replacing its extension. */
  lemma SongRenamed(format: string)
    requires '.' !in format
    ensures DownloadName("song.wav", format) == "song." + format
  {
    var name := "song" + "." + "wav";
    assert name == "song.wav";
    DownloadNameReplacesExtension("song", "wav", format);
  }

  /** Audio mode, mp3, "song.wav", convert: the download is "song.mp3" typed
      audio/mpeg and holds the file's own bytes. */
  lemma ConvertSongToMp3(content: seq<int>)
    ensures ValidTrace(Initial(), SongActions(content))
    ensures Run(Initial(), SongActions(content)).converted
    ensures DownloadOf(Run(Initial(), SongActions(content)))
      == Some(Artifact("song.mp3", Blob(content, "audio/mpeg")))
  {
    SongRun(content);
    assert MimeType("mp3") == "audio/mpeg";
    SongRenamed("mp3");
    assert "song." + "mp3" == "song.mp3";
  }

  /** Choosing flac after that conversion does not drop the result: the
      download is now named "song.flac" but still carries the audio/mpeg blob. */
  lemma SwitchFormatAfterConversion(content: seq<int>)
    ensures Enabled(AfterConvert(content), ChooseFormat("flac"))
    ensures FormatSelected(AfterConvert(content), "flac").converted
    ensures DownloadOf(FormatSelected(AfterConvert(content), "flac"))
      == Some(Artifact("song.flac", Blob(content, "audio/mpeg")))
  {
    assert "flac" == FormatsFor(Audio)[5];
    assert MimeType("mp3") == "audio/mpeg";
    SongRenamed("flac");
    assert "song." + "flac" == "song.flac";
  }

  /** Converting again after switching to flac retypes the blob as audio/flac. */
  lemma ReconvertAfterSwitch(content: seq<int>)
    ensures DownloadOf(Converted(FormatSelected(AfterConvert(content), "flac")))
      == Some(Artifact("song.flac", Blob(content, "audio/flac")))
  {
    assert MimeType("flac") == "audio/flac";
    SongRenamed("flac");
    assert "song." + "flac" == "song.flac";
  }

  /** Converting before any file is picked leaves the session as it was, with no result. */
  lemma ConvertWithoutFile()
    ensures var before := Run(Initial(), [ChooseMode(Audio), ChooseFormat("mp3")]);
      && Converted(before) == before
      && !Converted(before).converted
      && DownloadOf(Converted(before)).None?
  {
  }

  /** The base name is cut at the last '.', so inner dots stay. */
  lemma NameWithInnerDots()
    ensures DownloadName("a.b.c", "mp3") == "a.b.mp3"
  {
    var name := "a.b" + "." + "c";
    assert name == "a.b.c";
    DownloadNameReplacesExtension("a.b", "c", "mp3");
    assert "a.b" + "." + "mp3" == "a.b.mp3";
  }

  /** A name without a '.' has an empty base. */
  lemma NameWithoutDot()
    ensures DownloadName("song", "mp3") == ".mp3"
  {
    DownloadNameWithoutDot("song", "mp3");
  }

  /** The same first scenario driven through the component's handlers. */
  method DriveComponent(content: seq<int>)
  {
    var c := new MediaConverter();
    c.SelectMode(Audio);
    assert "mp3" == FormatsFor(Audio)[0];
    c.SelectFormat("mp3");
    c.SelectFile(Some(Song(content)));
    c.Convert();
    assert c.State() == AfterConvert(content);
    var artifact := c.Download();
    ConvertSongToMp3(content);
    SongRun(content);
    assert artifact == Some(Artifact("song.mp3", Blob(content, "audio/mpeg")));
    c.Reset();
    artifact := c.Download();
    assert artifact.None?;
  }
}
