/** `SettingsService`: the user's preferences, with setters that normalise
    what they store and a loader that falls back to the defaults.

    Writing the settings file after each assignment and reading it back are
    not modelled; what the loader finds in the file is an input. */
module SettingsService {
  import opened Wrappers
  import opened Text
  import opened Int32

  /** `SettingsService.Settings`.  The last two preferences are read and
      written by the windows but are not declared in the settings class
      itself; they are plain stored flags here. */
  datatype Settings = Settings(
    showWindowOnAssociationLaunch: bool,
    showWindowThresholdMB: i32,
    showTrayIconDuringExtraction: bool,
    sevenZipPath: Option<string>,
    openOutputFolderOnComplete: bool,
    closeAppAfterExtraction: bool)

  /** A fresh `Settings`: the window stays hidden on association launches,
      no size threshold, no tray icon, the bundled 7-Zip folder. */
  const Defaults: Settings := Settings(false, 0, false, None, false, false)

  /** What every setter guarantees: no negative threshold and no blank path. */
  predicate Normalised(s: Settings) {
    s.showWindowThresholdMB >= 0 &&
    (s.sevenZipPath.Some? ==> !IsNullOrWhiteSpace(s.sevenZipPath))
  }

  // ----- the property setters ------------------------------------------------

  function SetShowWindowOnAssociationLaunch(s: Settings, value: bool): (r: Settings)
    ensures r.showWindowOnAssociationLaunch == value
    ensures r.(showWindowOnAssociationLaunch := s.showWindowOnAssociationLaunch) == s
  {
    s.(showWindowOnAssociationLaunch := value)
  }

  /** A negative threshold is stored as 0. */
  function SetShowWindowThresholdMB(s: Settings, value: i32): (r: Settings)
    ensures r.showWindowThresholdMB >= 0
    ensures value >= 0 ==> r.showWindowThresholdMB == value
    ensures value < 0 ==> r.showWindowThresholdMB == 0
    ensures r.(showWindowThresholdMB := s.showWindowThresholdMB) == s
  {
    s.(showWindowThresholdMB := if value < 0 then 0 else value)
  }

  function SetShowTrayIconDuringExtraction(s: Settings, value: bool): (r: Settings)
    ensures r.showTrayIconDuringExtraction == value
    ensures r.(showTrayIconDuringExtraction := s.showTrayIconDuringExtraction) == s
  {
    s.(showTrayIconDuringExtraction := value)
  }

  /** Null, empty and white-space paths are all stored as null; any other
      path is stored as given. */
  function SetSevenZipPath(s: Settings, value: Option<string>): (r: Settings)
    ensures r.sevenZipPath.None? <==> IsNullOrWhiteSpace(value)
    ensures r.sevenZipPath.Some? ==> r.sevenZipPath == value
    ensures r.(sevenZipPath := s.sevenZipPath) == s
  {
    s.(sevenZipPath := if IsNullOrWhiteSpace(value) then None else value)
  }

  function SetOpenOutputFolderOnComplete(s: Settings, value: bool): (r: Settings)
    ensures r.openOutputFolderOnComplete == value
    ensures r.(openOutputFolderOnComplete := s.openOutputFolderOnComplete) == s
  {
    s.(openOutputFolderOnComplete := value)
  }

  function SetCloseAppAfterExtraction(s: Settings, value: bool): (r: Settings)
    ensures r.closeAppAfterExtraction == value
    ensures r.(closeAppAfterExtraction := s.closeAppAfterExtraction) == s
  {
    s.(closeAppAfterExtraction := value)
  }

  // ----- loading -------------------------------------------------------------

  /** What the loader finds next to the executable: no file, a file that
      cannot be read or parsed, or the result of deserialising it (JSON
      `null` deserialises to null). */
  datatype Stored = Absent | Unreadable | Deserialized(value: Option<Settings>)

  /** `Load()`: the deserialised settings as they are, else the defaults. */
  function Load(stored: Stored): (r: Settings)
    ensures stored.Deserialized? && stored.value.Some? ==> r == stored.value.value
    ensures !(stored.Deserialized? && stored.value.Some?) ==> r == Defaults
  {
    match stored
    case Deserialized(Some(s)) => s
    case _ => Defaults
  }

  // ----- properties ----------------------------------------------------------

  /** The defaults are normalised, and every setter keeps settings normalised. */
  lemma SettersKeepNormalised(s: Settings, flag: bool, mb: i32, path: Option<string>)
    requires Normalised(s)
    ensures Normalised(Defaults)
    ensures Normalised(SetShowWindowOnAssociationLaunch(s, flag))
    ensures Normalised(SetShowWindowThresholdMB(s, mb))
    ensures Normalised(SetShowTrayIconDuringExtraction(s, flag))
    ensures Normalised(SetSevenZipPath(s, path))
    ensures Normalised(SetOpenOutputFolderOnComplete(s, flag))
    ensures Normalised(SetCloseAppAfterExtraction(s, flag))
  {
  }

  /** Loaded values are not normalised again: a file holding a negative
      threshold and a blank path is taken as it is. */
  lemma LoadDoesNotNormalise()
    ensures var s := Defaults.(showWindowThresholdMB := -1, sevenZipPath := Some(" "));
      Load(Deserialized(Some(s))) == s && !Normalised(s)
  {
  }

  /** Storing what a getter returns changes nothing once the settings are
      normalised; storing twice is the same as storing once. */
  lemma SetGetRoundTrip(s: Settings, mb: i32, path: Option<string>)
    requires Normalised(s)
    ensures SetShowWindowThresholdMB(s, s.showWindowThresholdMB) == s
    ensures SetSevenZipPath(s, s.sevenZipPath) == s
    ensures SetShowWindowOnAssociationLaunch(s, s.showWindowOnAssociationLaunch) == s
    ensures SetShowTrayIconDuringExtraction(s, s.showTrayIconDuringExtraction) == s
    ensures SetOpenOutputFolderOnComplete(s, s.openOutputFolderOnComplete) == s
    ensures SetCloseAppAfterExtraction(s, s.closeAppAfterExtraction) == s
    ensures var t := SetShowWindowThresholdMB(s, mb); SetShowWindowThresholdMB(t, t.showWindowThresholdMB) == t
    ensures var t := SetSevenZipPath(s, path); SetSevenZipPath(t, t.sevenZipPath) == t
  {
  }
}
