/** `App.OnStartup`: whether the main window is shown when the program is
    started, and whether an extraction starts right away.

    Checking the file size may find the file, miss it or fail; that outcome
    is an input. */
module AppStartup {
  import opened Wrappers
  import opened Int32
  import opened Paths
  import opened SettingsService

  /** Bytes in a mebibyte. */
  const BytesPerMB: int := 1024 * 1024

  /** What `new FileInfo(path)` finds: the length of an existing file, no
      file, or an exception. */
  datatype SizeProbe = Exists(length: nat) | Gone | Failed

  /** Two's complement wrap-around of C#'s `long`. */
  function Wrap64(x: int): (r: int)
    ensures -0x8000_0000_0000_0000 <= r < 0x8000_0000_0000_0000
    ensures -0x8000_0000_0000_0000 <= x < 0x8000_0000_0000_0000 ==> r == x
  {
    (x + 0x8000_0000_0000_0000) % 0x1_0000_0000_0000_0000 - 0x8000_0000_0000_0000
  }

  /** `(long)mb * 1024L * 1024L`, each product wrapping as a `long` would. */
  function ThresholdBytes(mb: i32): int {
    Wrap64(Wrap64(mb * 1024) * 1024)
  }

  /** The byte threshold never wraps: it is exactly `mb` mebibytes. */
  lemma ThresholdBytesExact(mb: i32)
    ensures ThresholdBytes(mb) == mb * BytesPerMB
  {
    assert -0x8000_0000 * 1024 <= mb * 1024 <= 0x8000_0000 * 1024;
    assert Wrap64(mb * 1024) == mb * 1024;
    assert mb * 1024 * 1024 == mb * BytesPerMB;
  }

  /** The decision as `OnStartup` computes it: hidden for a file launch unless
      the window is wanted on such launches, and shown again for a file at
      least as large as a positive threshold. */
  function HideOnAssociation(hasFileArg: bool, settings: Settings, probe: SizeProbe): bool {
    var hidden := hasFileArg && !settings.showWindowOnAssociationLaunch;
    if hasFileArg && settings.showWindowThresholdMB > 0 then
      if probe.Exists? && probe.length >= ThresholdBytes(settings.showWindowThresholdMB) then false else hidden
    else hidden
  }

  /** What starting the program does: show the window or not, extract the
      archive named first on the command line, and close the hidden window
      once that extraction is over. */
  datatype Startup = Startup(shown: bool, extraction: Option<string>, closeWhenDone: bool)

  /** `OnStartup(e)`: `args` are the command-line arguments, `fs` the files
      that exist. */
  function OnStartup(args: seq<string>, fs: FileSystem, settings: Settings, probe: SizeProbe): (r: Startup)
    ensures var hasFileArg := |args| > 0 && FileExists(fs, args[0]);
      var large := settings.showWindowThresholdMB > 0 && probe.Exists? &&
                   probe.length >= settings.showWindowThresholdMB * BytesPerMB;
      (!r.shown <==> hasFileArg && !settings.showWindowOnAssociationLaunch && !large) &&
      (r.extraction.Some? <==> hasFileArg) &&
      (r.extraction.Some? ==> r.extraction.value == args[0]) &&
      (r.closeWhenDone <==> !r.shown)
  {
    var hasFileArg := |args| > 0 && FileExists(fs, args[0]);
    var hidden := HideOnAssociation(hasFileArg, settings, probe);
    ThresholdBytesExact(settings.showWindowThresholdMB);
    if hasFileArg then Startup(!hidden, Some(args[0]), hidden)
    else Startup(true, None, false)
  }

  /** Without a file to extract the window always shows, and nothing starts. */
  lemma NoFileShows(args: seq<string>, fs: FileSystem, settings: Settings, probe: SizeProbe)
    requires |args| == 0 || !FileExists(fs, args[0])
    ensures OnStartup(args, fs, settings, probe) == Startup(true, None, false)
  {
  }

  /** A threshold of 0 turns the size check off, and a file that cannot be
      measured leaves the decision as it was without a threshold. */
  lemma SizeCheckNeutral(args: seq<string>, fs: FileSystem, settings: Settings, probe: SizeProbe)
    ensures settings.showWindowThresholdMB <= 0 ==>
      OnStartup(args, fs, settings, probe) == OnStartup(args, fs, settings, Gone)
    ensures !probe.Exists? ==>
      OnStartup(args, fs, settings, probe) == OnStartup(args, fs, settings.(showWindowThresholdMB := 0), Exists(0))
  {
  }
}
