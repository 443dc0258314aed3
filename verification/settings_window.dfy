/** `SettingsWindow`: the form that edits the settings.  Its controls are a
    record of their values; a dialog and a message box are inputs and
    outputs of the handlers that use them. */
module SettingsWindow {
  import opened Wrappers
  import opened Text
  import opened Int32
  import opened Numerals
  import opened Paths
  import opened SettingsService
  import Extractor

  /** The controls of the form and the folder chosen for 7-Zip (`None`
      stands for the bundled folder). */
  datatype Form = Form(
    showOnAssociation: bool,
    showTrayIcon: bool,
    thresholdText: string,
    openFolderOnComplete: bool,
    closeAppAfterExtraction: bool,
    sevenZipPathBox: string,
    selected: Option<string>)

  /** `GetDisplaySevenZipPath()`: the chosen folder, else `7zip` next to the
      program. */
  function DisplayPath(selected: Option<string>, baseDirectory: string): (r: string)
    ensures selected.Some? ==> r == selected.value
    ensures selected.None? ==> r == Combine(baseDirectory, "7zip")
  {
    selected.GetOr(Combine(baseDirectory, "7zip"))
  }

  /** The text of the threshold box: the number when positive, else empty. */
  function ThresholdText(mb: i32): (r: string)
    ensures mb <= 0 <==> r == ""
  {
    if mb > 0 then IntToString(mb) else ""
  }

  /** The threshold `Save_Click` stores for the text of the box: a trimmed
      text that parses as a positive `int`, else 0. */
  function ParseThreshold(text: string): (r: i32)
    ensures r >= 0
    ensures r > 0 <==> TryParseInt32(text).Some? && TryParseInt32(text).value > 0
    ensures r > 0 ==> r == TryParseInt32(text).value
  {
    TrimIdempotent(text);
    match TryParseInt32(Trim(text))
    case Some(mb) => if mb > 0 then mb else 0
    case None => 0
  }

  /** `IsValidSevenZipFolder(folder)`. */
  predicate IsValidSevenZipFolder(fs: FileSystem, folder: string) {
    (FileExists(fs, Combine(folder, "7z.exe")) || FileExists(fs, Combine(folder, "7zG.exe")))
      && FileExists(fs, Combine(folder, "7z.dll"))
  }

  // ----- opening the window --------------------------------------------------

  /** The constructor as written: the path box is filled while the selection
      is still null, so it shows the bundled folder even when a custom one is
      configured; the selection is set afterwards. */
  function OpenAsWritten(s: Settings, baseDirectory: string): (r: Form)
    ensures r.sevenZipPathBox == Combine(baseDirectory, "7zip")
    ensures r.selected.None? <==> IsNullOrWhiteSpace(s.sevenZipPath)
  {
    Form(s.showWindowOnAssociationLaunch, s.showTrayIconDuringExtraction,
         ThresholdText(s.showWindowThresholdMB), s.openOutputFolderOnComplete,
         s.closeAppAfterExtraction, DisplayPath(None, baseDirectory),
         if IsNullOrWhiteSpace(s.sevenZipPath) then None else s.sevenZipPath)
  }

  /** With a custom folder configured, the freshly opened window shows the
      bundled folder, not the one in effect. */
  lemma OpenAsWrittenShowsDefault()
    ensures var s := Defaults.(sevenZipPath := Some("D:\\7-Zip"));
      var r := OpenAsWritten(s, "C:\\ExtractNow");
      r.selected == Some("D:\\7-Zip") && r.sevenZipPathBox == "C:\\ExtractNow\\7zip" &&
      r.sevenZipPathBox != DisplayPath(r.selected, "C:\\ExtractNow")
  {
    assert !IsRooted("7zip") && !EndsWithSeparator("C:\\ExtractNow");
    assert Combine("C:\\ExtractNow", "7zip") == "C:\\ExtractNow\\7zip";
    assert "C:\\ExtractNow\\7zip"[0] != "D:\\7-Zip"[0];
  }

  /** The box shows the folder in effect. */
  predicate ShowsSelection(f: Form, baseDirectory: string) {
    f.sevenZipPathBox == DisplayPath(f.selected, baseDirectory)
  }

  /** The constructor with the selection set before the box is filled. */
  function Open(s: Settings, baseDirectory: string): (r: Form)
    ensures ShowsSelection(r, baseDirectory)
    ensures r.selected.None? <==> IsNullOrWhiteSpace(s.sevenZipPath)
    ensures r.selected.Some? ==> r.selected == s.sevenZipPath
    ensures r.thresholdText == ThresholdText(s.showWindowThresholdMB)
  {
    var selected := if IsNullOrWhiteSpace(s.sevenZipPath) then None else s.sevenZipPath;
    Form(s.showWindowOnAssociationLaunch, s.showTrayIconDuringExtraction,
         ThresholdText(s.showWindowThresholdMB), s.openOutputFolderOnComplete,
         s.closeAppAfterExtraction, DisplayPath(selected, baseDirectory), selected)
  }

  // ----- choosing the 7-Zip folder -------------------------------------------

  /** What the folder dialog returned: whether OK was pressed, and the path. */
  datatype FolderDialog = FolderDialog(ok: bool, selectedPath: string)

  /** `SelectSevenZip_Click`: a non-blank valid folder confirmed with OK
      becomes the selection; anything else (with a warning for an invalid
      folder) leaves the form as it was. */
  function Select(f: Form, fs: FileSystem, baseDirectory: string, dialog: FolderDialog): (r: Form)
    ensures var accepted := dialog.ok && !AllWhiteSpace(dialog.selectedPath) &&
                            IsValidSevenZipFolder(fs, dialog.selectedPath);
      (accepted ==> r == f.(selected := Some(dialog.selectedPath),
                             sevenZipPathBox := dialog.selectedPath)) &&
      (!accepted ==> r == f)
  {
    if dialog.ok && !IsNullOrWhiteSpace(Some(dialog.selectedPath)) then
      if !IsValidSevenZipFolder(fs, dialog.selectedPath) then f
      else
        var f' := f.(selected := Some(dialog.selectedPath));
        f'.(sevenZipPathBox := DisplayPath(f'.selected, baseDirectory))
    else f
  }

  /** `RestoreSevenZip_Click`: back to the bundled folder. */
  function Restore(f: Form, baseDirectory: string): (r: Form)
    ensures r.selected.None? && ShowsSelection(r, baseDirectory)
    ensures r.(selected := f.selected, sevenZipPathBox := f.sevenZipPathBox) == f
  {
    var f' := f.(selected := None);
    f'.(sevenZipPathBox := DisplayPath(f'.selected, baseDirectory))
  }

  /** Selecting and restoring keep the box in step with the selection, and
      a selection, once made, is always a valid folder. */
  lemma SelectionInvariant(f: Form, fs: FileSystem, baseDirectory: string, dialog: FolderDialog)
    requires ShowsSelection(f, baseDirectory)
    requires f.selected.Some? ==> IsValidSevenZipFolder(fs, f.selected.value) && !AllWhiteSpace(f.selected.value)
    ensures var r := Select(f, fs, baseDirectory, dialog);
      ShowsSelection(r, baseDirectory) &&
      (r.selected.Some? ==> IsValidSevenZipFolder(fs, r.selected.value) && !AllWhiteSpace(r.selected.value))
    ensures ShowsSelection(Restore(f, baseDirectory), baseDirectory)
  {
  }

  // ----- saving --------------------------------------------------------------

  /** What `Save_Click` leaves behind: the settings, and whether the window
      closed (it stays open after the invalid-folder warning). */
  datatype Saved = Saved(settings: Settings, closed: bool)

  /** `Save_Click`: the five preferences are stored first, each through its
      setter; then a custom folder that is no longer valid keeps the window
      open and the stored path as it was, and otherwise the selection (null
      for the bundled folder, without any check) is stored and the window
      closes. */
  function Save(s: Settings, f: Form, fs: FileSystem): (r: Saved)
  {
    var s1 := SetShowWindowOnAssociationLaunch(s, f.showOnAssociation);
    var s2 := SetShowTrayIconDuringExtraction(s1, f.showTrayIcon);
    var s3 := SetShowWindowThresholdMB(s2, ParseThreshold(f.thresholdText));
    var s4 := SetOpenOutputFolderOnComplete(s3, f.openFolderOnComplete);
    var s5 := SetCloseAppAfterExtraction(s4, f.closeAppAfterExtraction);
    if f.selected.Some? && !IsValidSevenZipFolder(fs, f.selected.value) then Saved(s5, false)
    else Saved(SetSevenZipPath(s5, f.selected), true)
  }

  /** The threshold text round-trips: the number a window shows is the number
      it saves, and a negative stored number is saved as 0. */
  lemma ThresholdRoundTrip(mb: i32)
    ensures ParseThreshold(ThresholdText(mb)) == if mb > 0 then mb else 0
  {
    if mb > 0 {
      ParseIntToString(mb);
    }
  }

  /** Surrounding white space does not matter, and blank text saves 0. */
  lemma ThresholdTrimmed(text: string)
    ensures ParseThreshold(text) == ParseThreshold(Trim(text))
    ensures AllWhiteSpace(text) ==> ParseThreshold(text) == 0
  {
    ThresholdOfParse(text, Trim(text));
    if AllWhiteSpace(text) {
      BlankThreshold(text);
    }
  }

  /** The threshold depends on the text only through its parse. */
  lemma ThresholdOfParse(text: string, other: string)
    requires other == Trim(text)
    ensures ParseThreshold(text) == ParseThreshold(other)
  {
    TrimIdempotent(text);
  }

  lemma BlankThreshold(text: string)
    requires AllWhiteSpace(text)
    ensures ParseThreshold(text) == 0
  {
  }

  /** What `Save_Click` stores, whatever the outcome: the five preferences
      from the form; the window closes exactly when there is no selection or
      the selection is valid, and only then does the path change. */
  lemma SaveStores(s: Settings, f: Form, fs: FileSystem)
    ensures var r := Save(s, f, fs);
      r.settings.showWindowOnAssociationLaunch == f.showOnAssociation &&
      r.settings.showTrayIconDuringExtraction == f.showTrayIcon &&
      r.settings.showWindowThresholdMB == ParseThreshold(f.thresholdText) &&
      r.settings.openOutputFolderOnComplete == f.openFolderOnComplete &&
      r.settings.closeAppAfterExtraction == f.closeAppAfterExtraction &&
      (r.closed <==> f.selected.None? || IsValidSevenZipFolder(fs, f.selected.value)) &&
      (!r.closed ==> r.settings.sevenZipPath == s.sevenZipPath) &&
      (r.closed && f.selected.None? ==> r.settings.sevenZipPath.None?) &&
      (r.closed && f.selected.Some? && !AllWhiteSpace(f.selected.value) ==> r.settings.sevenZipPath == f.selected)
  {
  }

  /** Opening the window and saving it untouched gives back normalised
      settings whose folder is still usable. */
  lemma SaveUnchanged(s: Settings, baseDirectory: string, fs: FileSystem)
    requires Normalised(s)
    requires s.sevenZipPath.Some? ==> IsValidSevenZipFolder(fs, s.sevenZipPath.value)
    ensures Save(s, Open(s, baseDirectory), fs) == Saved(s, true)
  {
    ThresholdRoundTrip(s.showWindowThresholdMB);
  }

  /** The folder check is the extractor's own: a non-empty folder is valid
      exactly when the extractor finds the tool there. */
  lemma ValidFolderIsFound(fs: FileSystem, folder: string)
    requires |folder| > 0
    ensures IsValidSevenZipFolder(fs, folder) <==> Extractor.Resolve(fs, folder).Found?
  {
    Extractor.ResolveFinds(fs, folder);
  }

  /** After a save that closes the window, a custom folder is exactly the one
      the extractor searches, and the tool is found there. */
  lemma SavedFolderIsUsed(s: Settings, f: Form, fs: FileSystem, baseDirectory: string)
    requires f.selected.Some? ==> !AllWhiteSpace(f.selected.value)
    ensures var r := Save(s, f, fs);
      r.closed && f.selected.Some? ==>
        Extractor.ToolFolder(baseDirectory, r.settings.sevenZipPath) == f.selected.value &&
        Extractor.Resolve(fs, f.selected.value).Found?
  {
    var r := Save(s, f, fs);
    if r.closed && f.selected.Some? {
      ValidFolderIsFound(fs, f.selected.value);
    }
  }
}
