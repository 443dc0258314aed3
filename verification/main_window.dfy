/** `MainWindow`: the window that runs one extraction at a time.  Its
    controls, its private fields and the tray icon are a record; starting an
    extraction is a function from that record, the settings and the world
    (the files, the faults of the file system and of Explorer, and the run of
    the tool) to the record after the awaited extraction and the `finally`
    block.

    The tray icon is reduced to the percentage last drawn on it; the height
    of its green fill is `FillHeightAsWritten` of that percentage. */
module MainWindow {
  import opened Wrappers
  import opened Text
  import opened Int32
  import opened Numerals
  import opened Paths
  import opened SettingsService
  import Extractor

  // ----- the tray icon -------------------------------------------------------

  /** The height in pixels of the square inside the icon's 14-pixel outline. */
  const InnerHeight: int := 12

  /** The fill height as written: `Math.Round(12 * Clamp(percent, 0, 100) /
      100.0)` for a positive percentage, else 0.  The halves never occur
      (24c + 100 is never a multiple of 200), so the rounding mode does not
      matter and the value is `(24c + 100) / 200`. */
  function FillHeightAsWritten(percent: int): (r: int)
    ensures 0 <= r <= InnerHeight
    ensures percent <= 0 ==> r == 0
    ensures percent > 0 ==> -50 < 100 * r - InnerHeight * Clamp(percent, 0, 100) < 50
  {
    if percent <= 0 then 0
    else
      var c := Clamp(percent, 0, 100);
      NearestTwelfth(c);
      (24 * c + 100) / 200
  }

  /** `(24c + 100) / 200` is the integer nearest to `12c / 100`, and never a
      tie. */
  lemma NearestTwelfth(c: int)
    requires 0 <= c <= 100
    ensures 0 <= (24 * c + 100) / 200 <= InnerHeight
    ensures -50 < 100 * ((24 * c + 100) / 200) - InnerHeight * c < 50
  {
    var q := (24 * c + 100) / 200;
    assert 200 * q <= 24 * c + 100 < 200 * q + 200;
    NoTie(c, q);
  }

  /** `6c + 25` is odd and `50q` even. */
  lemma NoTie(c: int, q: int)
    ensures 24 * c + 100 != 200 * q
  {
    assert 24 * c + 100 == 4 * (2 * (3 * c + 12) + 1);
    assert 200 * q == 4 * (2 * (25 * q));
  }

  /** The first icon a fresh tray draws shows no fill at all: a percentage
      from 1 to 4 rounds to 0 pixels, so the single pixel that `EnsureTrayIcon`
      asks for, and that the start of every run asks for again, is never
      drawn. */
  lemma FillHeightAsWrittenEmpty()
    ensures forall p :: 1 <= p <= 4 ==> FillHeightAsWritten(p) == 0
    ensures FillHeightAsWritten(1) == 0
    ensures FillHeightAsWritten(5) == 1
  {
  }

  /** The fill height as evidently intended: the nearest pixel, but at least
      one for any positive percentage. */
  function FillHeight(percent: int): (r: int)
    ensures 0 <= r <= InnerHeight
    ensures r == 0 <==> percent <= 0
    ensures r == InnerHeight <==> percent >= 96
  {
    var h := FillHeightAsWritten(percent);
    if percent > 0 && h == 0 then 1 else h
  }

  /** The corrected height differs from the height as written only where that
      shows nothing for a positive percentage, and both grow with the
      percentage. */
  lemma {:induction false} FillHeightMonotone(p: int, q: int)
    requires p <= q
    ensures FillHeightAsWritten(p) <= FillHeightAsWritten(q)
    ensures FillHeight(p) <= FillHeight(q)
    ensures FillHeight(p) != FillHeightAsWritten(p) ==> 1 <= p <= 4
  {
    if p > 0 {
      var a, b := 24 * Clamp(p, 0, 100) + 100, 24 * Clamp(q, 0, 100) + 100;
      DivMonotone(a, b, 200);
    }
  }

  lemma DivMonotone(a: int, b: int, d: int)
    requires 0 <= a <= b && d > 0
    ensures a / d <= b / d
  {
    if a / d > b / d {
      assert d * (a / d) >= d * (b / d + 1) by {
        MulMonotone(d, b / d + 1, a / d);
      }
      assert false;
    }
  }

  // ----- the session ---------------------------------------------------------

  /** The window's state: the enabled buttons, the status text, the log
      lines, the progress bar, the private fields of one run, the tray icon
      (the percentage last drawn on it, when it exists), whether a close was
      scheduled, and the static folder last opened in Explorer, which
      outlives runs. */
  datatype Session = Session(
    running: bool,
    cancelEnabled: bool,
    openEnabled: bool,
    status: string,
    log: seq<string>,
    progress: int,
    indeterminate: bool,
    lastPercent: int,
    completed: bool,
    openedThisRun: bool,
    currentOutputDir: Option<string>,
    tray: Option<int>,
    closeRequested: bool,
    lastOpenedOutputFolder: Option<string>)

  /** The window as it is first shown. */
  const Initial: Session :=
    Session(false, false, false, "", [], 0, false, 0, false, false, None, None, false, None)

  /** The bounds the window keeps: the bar, the last percentage and the
      percentage on the icon within 0..100. */
  predicate Valid(s: Session) {
    0 <= s.progress <= 100 && 0 <= s.lastPercent <= 100 &&
    (s.tray.Some? ==> 0 <= s.tray.value <= 100)
  }

  /** The height in pixels of the icon's green fill, as the program draws it. */
  function TrayFill(s: Session): (r: Option<int>)
    ensures r.Some? <==> s.tray.Some?
    ensures r.Some? ==> 0 <= r.value <= InnerHeight
  {
    if s.tray.Some? then Some(FillHeightAsWritten(s.tray.value)) else None
  }

  /** The log only grows, at its end. */
  predicate LogExtends(a: Session, b: Session) {
    |a.log| <= |b.log| && b.log[..|a.log|] == a.log
  }

  function AppendLog(s: Session, text: string): (r: Session)
    ensures r.log == s.log + [text] && r.(log := s.log) == s
  {
    s.(log := s.log + [text])
  }

  /** `UpdateTrayIcon(percent)`: redraw an existing icon when the tray is
      wanted. */
  function UpdateTrayIcon(s: Session, settings: Settings, percent: int): (r: Session)
    ensures r.(tray := s.tray) == s
    ensures r.tray.None? <==> s.tray.None?
    ensures s.tray.Some? && settings.showTrayIconDuringExtraction ==> r.tray == Some(percent)
    ensures !settings.showTrayIconDuringExtraction ==> r == s
  {
    if s.tray.None? || !settings.showTrayIconDuringExtraction then s
    else s.(tray := Some(percent))
  }

  /** `EnsureTrayIcon()`: create the icon once, when the tray is wanted, and
      draw one percent. */
  function EnsureTrayIcon(s: Session, settings: Settings): (r: Session)
    ensures r.(tray := s.tray) == s
    ensures r.tray.Some? <==> s.tray.Some? || settings.showTrayIconDuringExtraction
    ensures s.tray.None? && settings.showTrayIconDuringExtraction ==> r.tray == Some(1)
  {
    if !settings.showTrayIconDuringExtraction || s.tray.Some? then s
    else UpdateTrayIcon(s.(tray := Some(0)), settings, 1)
  }

  /** The progress callback: the bar, the status text (with the percentage as
      reported) and the icon show the percentage clamped to 0..100. */
  function OnProgress(s: Session, settings: Settings, percent: int): (r: Session)
    ensures r.progress == Clamp(percent, 0, 100) && r.lastPercent == r.progress && !r.indeterminate
    ensures r.status == "Extracting… " + IntToString(percent) + "%"
    ensures r.tray.Some? && settings.showTrayIconDuringExtraction ==> r.tray == Some(r.progress)
    ensures r.log == s.log && r.running == s.running && r.completed == s.completed
  {
    var c := Clamp(percent, 0, 100);
    UpdateTrayIcon(s.(indeterminate := false, progress := c,
                      status := "Extracting… " + IntToString(percent) + "%", lastPercent := c), settings, c)
  }

  /** One report of the extractor, delivered to its sink. */
  function OnReport(s: Session, settings: Settings, report: Extractor.Report): Session {
    match report
    case Logged(text) => AppendLog(s, text)
    case Progress(p) => OnProgress(s, settings, p)
  }

  /** The reports of one extraction, delivered in order. */
  function OnReports(s: Session, settings: Settings, reports: seq<Extractor.Report>): Session
    decreases |reports|
  {
    if |reports| == 0 then s else OnReports(OnReport(s, settings, reports[0]), settings, reports[1..])
  }

  /** Two states of the same run: the reports of the extractor change only
      the log, the bar, the status and the icon's fill. */
  predicate SameRun(a: Session, b: Session) {
    a.running == b.running && a.cancelEnabled == b.cancelEnabled && a.openEnabled == b.openEnabled &&
    a.completed == b.completed && a.openedThisRun == b.openedThisRun &&
    a.currentOutputDir == b.currentOutputDir && a.closeRequested == b.closeRequested &&
    a.lastOpenedOutputFolder == b.lastOpenedOutputFolder && (a.tray.None? <==> b.tray.None?)
  }

  lemma OnReportEffect(s: Session, settings: Settings, report: Extractor.Report)
    requires Valid(s)
    ensures var r := OnReport(s, settings, report);
      Valid(r) && SameRun(s, r)
  {
    match report
    case Logged(text) =>
    case Progress(percent) =>
      var r := OnProgress(s, settings, percent);
      assert r.tray.None? <==> s.tray.None?;
  }

  /** Delivering reports keeps the window's bounds and touches nothing but
      the log, the bar, the status and the icon's fill. */
  lemma {:induction false} OnReportsEffect(s: Session, settings: Settings, reports: seq<Extractor.Report>)
    requires Valid(s)
    decreases |reports|
    ensures var r := OnReports(s, settings, reports);
      Valid(r) && SameRun(s, r)
  {
    if |reports| > 0 {
      OnReportEffect(s, settings, reports[0]);
      OnReportsEffect(OnReport(s, settings, reports[0]), settings, reports[1..]);
    }
  }

  /** One report appends its text when it is a log line, and nothing else. */
  lemma OnReportLog(s: Session, settings: Settings, report: Extractor.Report)
    ensures OnReport(s, settings, report).log == s.log + Extractor.LoggedTexts([report])
  {
  }

  /** Delivering reports appends exactly the logged texts, in order. */
  lemma {:induction false} OnReportsLog(s: Session, settings: Settings, reports: seq<Extractor.Report>)
    decreases |reports|
    ensures OnReports(s, settings, reports).log == s.log + Extractor.LoggedTexts(reports)
  {
    if |reports| > 0 {
      var s1 := OnReport(s, settings, reports[0]);
      var head, tail := Extractor.LoggedTexts([reports[0]]), Extractor.LoggedTexts(reports[1..]);
      assert s1.log == s.log + head by {
        OnReportLog(s, settings, reports[0]);
      }
      assert OnReports(s1, settings, reports[1..]).log == s1.log + tail by {
        OnReportsLog(s1, settings, reports[1..]);
      }
      assert Extractor.LoggedTexts(reports) == head + tail by {
        assert reports == [reports[0]] + reports[1..];
        Extractor.LoggedTextsAppend([reports[0]], reports[1..]);
      }
      assert s.log + head + tail == s.log + (head + tail);
    } else {
      assert s.log + Extractor.LoggedTexts(reports) == s.log;
    }
  }

  // ----- opening the output folder -------------------------------------------

  /** When the folder is opened, the checks in the program's order: the
      setting, a completed run, not yet opened in this run, a folder name that
      is not blank and names an existing folder, and a folder other than the
      one opened last, ignoring case. */
  predicate OpenGate(s: Session, settings: Settings, outDir: Option<string>, fs: FileSystem) {
    settings.openOutputFolderOnComplete && s.completed && !s.openedThisRun &&
    !IsNullOrWhiteSpace(outDir) && DirectoryExists(fs, outDir.value) &&
    !EqualsIgnoreCase(s.lastOpenedOutputFolder, outDir)
  }

  /** `OpenOutputFolderIfEnabled(outDir)`: Explorer is started at most once per
      run, only when the gate is open; `explorerFault` is the message of a
      failing start, which is logged after the attempt. */
  function OpenOutputFolderIfEnabled(s: Session, settings: Settings, outDir: Option<string>,
                                     fs: FileSystem, explorerFault: Option<string>): (r: Session)
    ensures r.(log := s.log, openedThisRun := s.openedThisRun, lastOpenedOutputFolder := s.lastOpenedOutputFolder) == s
    ensures LogExtends(s, r)
  {
    if !OpenGate(s, settings, outDir, fs) then s
    else
      var notes := ["Opening output folder: " + outDir.value] +
                   (if explorerFault.Some? then ["Failed to open output folder: " + explorerFault.value] else []);
      s.(openedThisRun := true, lastOpenedOutputFolder := outDir, log := s.log + notes)
  }

  /** The folder is opened exactly when the gate is open; opening records the
      folder and logs it, and a closed gate changes nothing. */
  lemma OpenWhenGateOpen(s: Session, settings: Settings, outDir: Option<string>,
                         fs: FileSystem, explorerFault: Option<string>)
    ensures var r := OpenOutputFolderIfEnabled(s, settings, outDir, fs, explorerFault);
      (OpenGate(s, settings, outDir, fs) ==>
        r.openedThisRun && r.lastOpenedOutputFolder == outDir &&
        |r.log| > |s.log| && r.log[|s.log|] == "Opening output folder: " + outDir.value &&
        r.(log := s.log, openedThisRun := s.openedThisRun, lastOpenedOutputFolder := s.lastOpenedOutputFolder) == s) &&
      (!OpenGate(s, settings, outDir, fs) ==> r == s)
  {
  }

  /** Asking again changes nothing, for the same folder or any other: once
      per run, and never twice in a row for the same folder, whatever its
      case. */
  lemma OpenAtMostOnce(s: Session, settings: Settings, outDir: Option<string>, other: Option<string>,
                       fs: FileSystem, fault: Option<string>, fault': Option<string>)
    ensures var r := OpenOutputFolderIfEnabled(s, settings, outDir, fs, fault);
      (r.openedThisRun ==> OpenOutputFolderIfEnabled(r, settings, other, fs, fault') == r) &&
      (OpenGate(s, settings, outDir, fs) ==>
         forall t: Session :: (t.lastOpenedOutputFolder == r.lastOpenedOutputFolder &&
           EqualsIgnoreCase(other, outDir)) ==> !OpenGate(t, settings, other, fs))
  {
    var r := OpenOutputFolderIfEnabled(s, settings, outDir, fs, fault);
    OpenWhenGateOpen(s, settings, outDir, fs, fault);
    OpenWhenGateOpen(r, settings, other, fs, fault');
    if OpenGate(s, settings, outDir, fs) {
      forall t: Session | t.lastOpenedOutputFolder == r.lastOpenedOutputFolder && EqualsIgnoreCase(other, outDir)
        ensures !OpenGate(t, settings, other, fs)
      {
        EqualsIgnoreCaseEquivalence(other, outDir, outDir);
        EqualsIgnoreCaseEquivalence(outDir, other, outDir);
      }
    }
  }

  // ----- one extraction ------------------------------------------------------

  /** The world of one call: the environment of the extractor, the message of
      `Directory.CreateDirectory` if it throws, and the message of starting
      Explorer if that throws. */
  datatype World = World(env: Extractor.Environment, createFault: Option<string>, explorerFault: Option<string>)

  /** The message of `Path.Combine` given the null directory of a root path. */
  const NullDirectoryMessage: string := "Value cannot be null. (Parameter 'path1')"

  /** `StartExtraction` up to the `await`: ignored (a run is in progress, or
      the archive is missing), failed with an exception's message, or waiting
      for the extractor with the output folder created. */
  datatype Prepared =
    | Skipped(session: Session)
    | Faulted(session: Session, message: string)
    | Awaiting(session: Session, outDir: string, fs: FileSystem)

  /** The output folder: the archive's folder and its name without extension. */
  function OutputFolder(archivePath: string): Option<string> {
    match DirectoryName(archivePath)
    case None => None
    case Some(dir) => Some(Combine(dir, FileNameWithoutExtension(archivePath)))
  }

  function Prepare(s: Session, settings: Settings, archivePath: string, world: World): (r: Prepared) {
    if s.running then Skipped(AppendLog(s, "Extraction already in progress. Ignoring request for: " + archivePath))
    else
      var reset := s.(openedThisRun := false, completed := false, log := [], status := "Starting…",
                      indeterminate := true, progress := 0, cancelEnabled := true, lastPercent := 0);
      if !FileExists(world.env.fs, archivePath) then
        Skipped(AppendLog(reset, "Archive not found: " + archivePath).(status := "Archive not found"))
      else
        var started := reset.(running := true, openEnabled := false);
        match OutputFolder(archivePath)
        case None => Faulted(started, NullDirectoryMessage)
        case Some(outDir) =>
          var current := started.(currentOutputDir := Some(outDir));
          if world.createFault.Some? then Faulted(current, world.createFault.value)
          else
            var fs := world.env.fs.(directories := world.env.fs.directories + {Canonical(outDir)});
            var withTray := EnsureTrayIcon(AppendLog(current, "Output folder: " + outDir), settings);
            Awaiting(UpdateTrayIcon(withTray, settings, if withTray.lastPercent < 1 then 1 else withTray.lastPercent),
                     outDir, fs)
  }

  /** The `finally` block: the cancel button off, no run, no tray icon. */
  function Finish(s: Session): (r: Session)
    ensures !r.running && !r.cancelEnabled && r.tray.None?
    ensures r.(running := s.running, cancelEnabled := s.cancelEnabled, tray := s.tray) == s
  {
    s.(cancelEnabled := false, running := false, tray := None)
  }

  /** The success branch: the bar full, "Done", the open button on, the
      folder opened if enabled, and the close scheduled if enabled. */
  function Succeed(s: Session, settings: Settings, outDir: string, fs: FileSystem,
                   explorerFault: Option<string>): (r: Session)
    ensures r.completed && r.openEnabled && r.progress == 100 && r.status == "Done"
    ensures r.running == s.running && r.cancelEnabled == s.cancelEnabled && r.tray == s.tray &&
            r.lastPercent == s.lastPercent && r.currentOutputDir == s.currentOutputDir
    ensures LogExtends(s, r)
    ensures r.closeRequested == (s.closeRequested || settings.closeAppAfterExtraction)
  {
    var done := Done(s);
    var afterOpen := OpenOutputFolderIfEnabled(done, settings, Some(outDir), fs, explorerFault);
    afterOpen.(closeRequested := afterOpen.closeRequested || settings.closeAppAfterExtraction)
  }

  /** The window just after a success is shown, before the folder is opened. */
  function Done(s: Session): Session {
    s.(progress := 100, status := "Done", log := s.log + ["Extraction completed successfully."],
       completed := true, openEnabled := true)
  }

  /** The outcome of the awaited extraction shown: the bar, the icon and the
      output folder stay, and the log only grows. */
  function Shown(s: Session, settings: Settings, outDir: string, fs: FileSystem,
                 explorerFault: Option<string>, outcome: Extractor.Outcome): (r: Session)
    ensures LogExtends(s, r) && r.currentOutputDir == s.currentOutputDir && r.tray == s.tray &&
            r.lastPercent == s.lastPercent && (r.progress == s.progress || r.progress == 100)
    ensures !(outcome.Completed? && outcome.result.success) ==>
      r.openedThisRun == s.openedThisRun && r.closeRequested == s.closeRequested &&
      r.lastOpenedOutputFolder == s.lastOpenedOutputFolder
  {
    match outcome
    case Canceled => AppendLog(s.(status := "Canceled"), "Extraction canceled by user.")
    case Completed(result) =>
      if result.success then Succeed(s, settings, outDir, fs, explorerFault)
      else AppendLog(s.(status := "Failed"), "Extraction failed: " + result.errorMessage.GetOr(""))
  }

  /** The outcome of the awaited extraction shown, then the `finally` block. */
  function Conclude(s: Session, settings: Settings, outDir: string, fs: FileSystem,
                    explorerFault: Option<string>, outcome: Extractor.Outcome): Session
  {
    Finish(Shown(s, settings, outDir, fs, explorerFault, outcome))
  }

  /** The awaited extraction and what follows it: the reports are delivered,
      then the outcome is shown and the run finishes. */
  function Complete(s: Session, settings: Settings, outDir: string, fs: FileSystem,
                    explorerFault: Option<string>, extraction: Extractor.Extraction): Session
  {
    Conclude(OnReports(s, settings, extraction.reports), settings, outDir, fs, explorerFault, extraction.outcome)
  }

  /** `StartExtraction(archivePath)`: `run` is what the tool does. */
  function StartExtraction(s: Session, settings: Settings, archivePath: string, world: World,
                           run: Extractor.Run): Session
  {
    match Prepare(s, settings, archivePath, world)
    case Skipped(skipped) => skipped
    case Faulted(faulted, message) => Finish(AppendLog(faulted.(status := "Error"), "Unexpected error: " + message))
    case Awaiting(waiting, outDir, fs) =>
      var extraction := Extractor.ExtractAsync(world.env.(fs := fs), settings.sevenZipPath, archivePath, outDir, run);
      Complete(waiting, settings, outDir, fs, world.explorerFault, extraction)
  }

  // ----- the ways an extraction starts ---------------------------------------

  /** `Window_Drop`: the first dropped file, unless a run is in progress. */
  function Drop(s: Session, settings: Settings, files: seq<string>, world: World, run: Extractor.Run): Session {
    if s.running || |files| == 0 then s else StartExtraction(s, settings, files[0], world, run)
  }

  /** Ctrl+O: the file chosen in the dialog, unless a run is in progress
      (`None` when the dialog is canceled). */
  function ExtractShortcut(s: Session, settings: Settings, chosen: Option<string>, world: World,
                           run: Extractor.Run): Session {
    if s.running || chosen.None? then s else StartExtraction(s, settings, chosen.value, world, run)
  }

  /** `MainWindow_Loaded`: the second command-line argument (the first is the
      program), when it names an existing file and no run is in progress. */
  function Loaded(s: Session, settings: Settings, commandLine: seq<string>, world: World,
                  run: Extractor.Run): Session {
    if |commandLine| > 1 && FileExists(world.env.fs, commandLine[1]) && !s.running then
      StartExtraction(s, settings, commandLine[1], world, run)
    else s
  }

  // ----- properties ----------------------------------------------------------

  /** A request during a run only logs that it is ignored; a drop, the
      shortcut and a second `Loaded` are not even logged. */
  lemma BusyIgnoresRequests(s: Session, settings: Settings, archivePath: string, files: seq<string>,
                            chosen: Option<string>, commandLine: seq<string>, world: World, run: Extractor.Run)
    requires s.running
    ensures StartExtraction(s, settings, archivePath, world, run) ==
      AppendLog(s, "Extraction already in progress. Ignoring request for: " + archivePath)
    ensures Drop(s, settings, files, world, run) == s
    ensures ExtractShortcut(s, settings, chosen, world, run) == s
    ensures Loaded(s, settings, commandLine, world, run) == s
  {
  }

  /** While the extractor is awaited the window is running with the cancel
      button on and the open button off, so every other request is turned
      away; the log holds exactly the output folder line. */
  lemma AwaitingIsRunning(s: Session, settings: Settings, archivePath: string, world: World)
    requires !s.running
    ensures var p := Prepare(s, settings, archivePath, world);
      (p.Awaiting? <==> FileExists(world.env.fs, archivePath) && OutputFolder(archivePath).Some? &&
                        world.createFault.None?) &&
      (p.Awaiting? ==> p.session.running && p.session.cancelEnabled && !p.session.openEnabled &&
                       !p.session.completed && !p.session.openedThisRun &&
                       p.session.log == ["Output folder: " + p.outDir] &&
                       Some(p.outDir) == OutputFolder(archivePath) &&
                       p.session.currentOutputDir == Some(p.outDir) &&
                       DirectoryExists(p.fs, p.outDir))
  {
  }

  /** A missing archive leaves the window idle with a fresh log naming it;
      the cancel button stays enabled although nothing runs. */
  lemma MissingArchiveStaysIdle(s: Session, settings: Settings, archivePath: string, world: World, run: Extractor.Run)
    requires !s.running && !FileExists(world.env.fs, archivePath)
    ensures var r := StartExtraction(s, settings, archivePath, world, run);
      !r.running && r.cancelEnabled && r.status == "Archive not found" &&
      r.log == ["Archive not found: " + archivePath] &&
      r.lastOpenedOutputFolder == s.lastOpenedOutputFolder && r.tray == s.tray
  {
  }

  /** The output folder is named after the archive without its extension and
      sits in the archive's folder. */
  lemma OutputFolderName(archivePath: string)
    requires DirectoryName(archivePath).Some? && |DirectoryName(archivePath).value| > 0
    requires IsPlainName(FileNameWithoutExtension(archivePath))
    ensures OutputFolder(archivePath).Some?
    ensures FileName(OutputFolder(archivePath).value) == FileNameWithoutExtension(archivePath)
    ensures StartsWith(OutputFolder(archivePath).value, DirectoryName(archivePath).value)
  {
    var dir, stem := DirectoryName(archivePath).value, FileNameWithoutExtension(archivePath);
    FileNameOfCombine(dir, stem);
    assert !IsRooted(stem);
    var out := Combine(dir, stem);
    assert out[..|dir|] == dir;
  }

  /** With the tray on, the icon shown while the extractor is awaited is
      drawn for one percent, since every run starts from 0, and as written
      that draws no fill at all; the corrected height would draw one pixel. */
  lemma TrayEmptyAtStart(s: Session, settings: Settings, archivePath: string, world: World)
    requires !s.running && settings.showTrayIconDuringExtraction
    ensures var p := Prepare(s, settings, archivePath, world);
      p.Awaiting? ==>
        p.session.tray == Some(1) && TrayFill(p.session) == Some(0) && FillHeight(p.session.tray.value) == 1
  {
    FillHeightAsWrittenEmpty();
  }

  /** What the start of a run leaves behind in an idle window: a fresh run
      within bounds, skipped exactly when the archive is missing. */
  lemma PrepareFresh(s: Session, settings: Settings, archivePath: string, world: World)
    requires Valid(s) && !s.running
    ensures var p := Prepare(s, settings, archivePath, world);
      Valid(p.session) && !p.session.completed && !p.session.openedThisRun &&
      p.session.closeRequested == s.closeRequested &&
      p.session.lastOpenedOutputFolder == s.lastOpenedOutputFolder &&
      (p.Skipped? <==> !FileExists(world.env.fs, archivePath)) &&
      (p.Skipped? ==> !p.session.running) &&
      (!p.Skipped? ==> !p.session.openEnabled)
  {
  }

  /** How a run that reached the extractor ends: idle, without an icon,
      with the outcome in the status, and, for a success only, the full bar
      and the open button. */
  lemma ConcludeIdle(s: Session, settings: Settings, outDir: string, fs: FileSystem,
                     explorerFault: Option<string>, outcome: Extractor.Outcome)
    requires Valid(s)
    ensures var r := Conclude(s, settings, outDir, fs, explorerFault, outcome);
      Valid(r) && !r.running && !r.cancelEnabled && r.tray.None? && LogExtends(s, r) &&
      r.currentOutputDir == s.currentOutputDir
  {
  }

  /** The status tells how the run ended, and only a success marks the run
      completed, fills the bar and enables the open button. */
  lemma ConcludeStatus(s: Session, settings: Settings, outDir: string, fs: FileSystem,
                       explorerFault: Option<string>, outcome: Extractor.Outcome)
    requires !s.completed && !s.openEnabled
    ensures var r := Conclude(s, settings, outDir, fs, explorerFault, outcome);
      (r.completed <==> outcome.Completed? && outcome.result.success) &&
      (r.status == "Done" <==> r.completed) && (r.openEnabled <==> r.completed) &&
      r.status in {"Done", "Failed", "Canceled"} &&
      (r.completed ==> r.progress == 100)
  {
    match outcome
    case Canceled =>
    case Completed(result) =>
  }

  /** Only a success may open the folder, exactly when the gate is open, and
      may schedule the close, exactly when the setting asks for it. */
  lemma ConcludeOpens(s: Session, settings: Settings, outDir: string, fs: FileSystem,
                      explorerFault: Option<string>, outcome: Extractor.Outcome)
    requires !s.completed && !s.openedThisRun
    ensures var r := Conclude(s, settings, outDir, fs, explorerFault, outcome);
      r.openedThisRun <==> outcome.Completed? && outcome.result.success &&
                           settings.openOutputFolderOnComplete && !AllWhiteSpace(outDir) &&
                           DirectoryExists(fs, outDir) && !EqualsIgnoreCase(s.lastOpenedOutputFolder, Some(outDir))
    ensures var r := Conclude(s, settings, outDir, fs, explorerFault, outcome);
      r.closeRequested <==> s.closeRequested ||
                            (outcome.Completed? && outcome.result.success && settings.closeAppAfterExtraction)
    ensures var r := Conclude(s, settings, outDir, fs, explorerFault, outcome);
      r.lastOpenedOutputFolder == (if r.openedThisRun then Some(outDir) else s.lastOpenedOutputFolder)
  {
    if outcome.Completed? && outcome.result.success {
      SucceedOpens(s, settings, outDir, fs, explorerFault, outcome);
    }
  }

  /** The success case of `ConcludeOpens`: the folder opens exactly when the
      gate, looked at after the "Done" update, is open. */
  lemma SucceedOpens(s: Session, settings: Settings, outDir: string, fs: FileSystem,
                     explorerFault: Option<string>, outcome: Extractor.Outcome)
    requires !s.completed && !s.openedThisRun
    requires outcome.Completed? && outcome.result.success
    ensures var r := Conclude(s, settings, outDir, fs, explorerFault, outcome);
      r.openedThisRun <==> settings.openOutputFolderOnComplete && !AllWhiteSpace(outDir) &&
                           DirectoryExists(fs, outDir) && !EqualsIgnoreCase(s.lastOpenedOutputFolder, Some(outDir))
    ensures var r := Conclude(s, settings, outDir, fs, explorerFault, outcome);
      r.lastOpenedOutputFolder == (if r.openedThisRun then Some(outDir) else s.lastOpenedOutputFolder)
  {
    var done := Done(s);
    assert Shown(s, settings, outDir, fs, explorerFault, outcome) == Succeed(s, settings, outDir, fs, explorerFault);
    assert OpenGate(done, settings, Some(outDir), fs) <==>
      settings.openOutputFolderOnComplete && !AllWhiteSpace(outDir) && DirectoryExists(fs, outDir) &&
      !EqualsIgnoreCase(s.lastOpenedOutputFolder, Some(outDir));
    OpenWhenGateOpen(done, settings, Some(outDir), fs, explorerFault);
  }

  /** Every run ends idle and within bounds; the status tells how it ended,
      and only a successful run enables the open button, may open the folder
      and may schedule the close. */
  lemma {:induction false} EveryRunEndsIdle(s: Session, settings: Settings, archivePath: string, world: World,
                                            run: Extractor.Run)
    requires Valid(s) && !s.running
    ensures var r := StartExtraction(s, settings, archivePath, world, run);
      !r.running && Valid(r) &&
      (r.status == "Done" <==> r.completed) &&
      (r.openedThisRun ==> r.completed) &&
      (r.closeRequested <==> s.closeRequested || (r.completed && settings.closeAppAfterExtraction)) &&
      r.lastOpenedOutputFolder == (if r.openedThisRun then r.currentOutputDir else s.lastOpenedOutputFolder) &&
      (FileExists(world.env.fs, archivePath) ==>
        !r.cancelEnabled && r.tray.None? && (r.openEnabled <==> r.completed) &&
        r.status in {"Done", "Failed", "Canceled", "Error"})
  {
    PrepareFresh(s, settings, archivePath, world);
    match Prepare(s, settings, archivePath, world)
    case Skipped(_) =>
    case Faulted(_, _) =>
    case Awaiting(waiting, outDir, fs) =>
      var extraction := Extractor.ExtractAsync(world.env.(fs := fs), settings.sevenZipPath, archivePath, outDir, run);
      OnReportsEffect(waiting, settings, extraction.reports);
      var reported := OnReports(waiting, settings, extraction.reports);
      ConcludeIdle(reported, settings, outDir, fs, world.explorerFault, extraction.outcome);
      ConcludeStatus(reported, settings, outDir, fs, world.explorerFault, extraction.outcome);
      ConcludeOpens(reported, settings, outDir, fs, world.explorerFault, extraction.outcome);
      AwaitingIsRunning(s, settings, archivePath, world);
  }

  /** After a successful extraction the bar is full, the folder is opened
      exactly when the gate allows it, and the log continues with every
      logged text of the extractor, in order. */
  lemma CompleteSucceeds(s: Session, settings: Settings, outDir: string, fs: FileSystem,
                         explorerFault: Option<string>, extraction: Extractor.Extraction)
    requires Valid(s) && !s.completed && !s.openedThisRun && !s.openEnabled
    ensures var r := Complete(s, settings, outDir, fs, explorerFault, extraction);
      var logged := Extractor.LoggedTexts(extraction.reports);
      r.completed ==>
        extraction.outcome.Completed? && extraction.outcome.result.success && r.progress == 100 &&
        (r.openedThisRun <==> settings.openOutputFolderOnComplete && !AllWhiteSpace(outDir) &&
                              DirectoryExists(fs, outDir) &&
                              !EqualsIgnoreCase(s.lastOpenedOutputFolder, Some(outDir))) &&
        |r.log| >= |s.log| + |logged| && r.log[..|s.log| + |logged|] == s.log + logged
  {
    var reported := OnReports(s, settings, extraction.reports);
    OnReportsEffect(s, settings, extraction.reports);
    OnReportsLog(s, settings, extraction.reports);
    ConcludeIdle(reported, settings, outDir, fs, explorerFault, extraction.outcome);
    ConcludeStatus(reported, settings, outDir, fs, explorerFault, extraction.outcome);
    ConcludeOpens(reported, settings, outDir, fs, explorerFault, extraction.outcome);
  }

  /** A run that reaches the extractor is the awaited extraction and what
      follows it; any other run ends uncompleted. */
  lemma StartAwaits(s: Session, settings: Settings, archivePath: string, world: World, run: Extractor.Run)
    requires !s.running
    ensures var p := Prepare(s, settings, archivePath, world);
      var r := StartExtraction(s, settings, archivePath, world, run);
      (p.Awaiting? ==>
        r == Complete(p.session, settings, p.outDir, p.fs, world.explorerFault,
                      Extractor.ExtractAsync(world.env.(fs := p.fs), settings.sevenZipPath, archivePath, p.outDir, run))) &&
      (!p.Awaiting? ==> !r.completed)
  {
  }

  /** The awaited part of a successful run, from the window as the await
      finds it. */
  lemma AwaitedSuccess(waiting: Session, settings: Settings, archivePath: string, outDir: string, fs: FileSystem,
                       world: World, run: Extractor.Run, r: Session)
    requires Valid(waiting) && !waiting.completed && !waiting.openedThisRun && !waiting.openEnabled
    requires waiting.log == ["Output folder: " + outDir] && DirectoryExists(fs, outDir)
    requires r == Complete(waiting, settings, outDir, fs, world.explorerFault,
                           Extractor.ExtractAsync(world.env.(fs := fs), settings.sevenZipPath, archivePath, outDir, run))
    ensures r.completed ==>
      r.progress == 100 &&
      (r.openedThisRun <==> settings.openOutputFolderOnComplete && !AllWhiteSpace(outDir) &&
                            !EqualsIgnoreCase(waiting.lastOpenedOutputFolder, Some(outDir))) &&
      |r.log| > |run.output| &&
      r.log[..1 + |run.output|] ==
        ["Output folder: " + outDir] +
        seq(|run.output|, i requires 0 <= i < |run.output| => Extractor.LogText(run.output[i]))
  {
    var env := world.env.(fs := fs);
    var extraction := Extractor.ExtractAsync(env, settings.sevenZipPath, archivePath, outDir, run);
    CompleteSucceeds(waiting, settings, outDir, fs, world.explorerFault, extraction);
    if r.completed {
      Extractor.ExtractSucceeds(env, settings.sevenZipPath, archivePath, outDir, run);
      var logged := Extractor.LoggedTexts(extraction.reports);
      assert |logged| == |run.output|;
      assert r.log[..|waiting.log| + |logged|] == waiting.log + logged;
    }
  }

  /** A successful run: the folder is opened exactly when the setting is on
      and the folder is not, ignoring case, the one opened last; the log
      starts with the output folder and then every output line of the tool,
      in order. */
  lemma {:induction false} SuccessfulRun(s: Session, settings: Settings, archivePath: string, world: World,
                                         run: Extractor.Run)
    requires Valid(s) && !s.running
    ensures var r := StartExtraction(s, settings, archivePath, world, run);
      var p := Prepare(s, settings, archivePath, world);
      r.completed ==>
        p.Awaiting? && r.progress == 100 &&
        (r.openedThisRun <==> settings.openOutputFolderOnComplete && !AllWhiteSpace(p.outDir) &&
                              !EqualsIgnoreCase(s.lastOpenedOutputFolder, Some(p.outDir))) &&
        |r.log| > |run.output| &&
        r.log[..1 + |run.output|] ==
          ["Output folder: " + p.outDir] +
          seq(|run.output|, i requires 0 <= i < |run.output| => Extractor.LogText(run.output[i]))
  {
    var p := Prepare(s, settings, archivePath, world);
    StartAwaits(s, settings, archivePath, world, run);
    PrepareFresh(s, settings, archivePath, world);
    AwaitingIsRunning(s, settings, archivePath, world);
    if p.Awaiting? {
      AwaitedSuccess(p.session, settings, archivePath, p.outDir, p.fs, world, run,
                     StartExtraction(s, settings, archivePath, world, run));
    }
  }
}
