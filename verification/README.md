# ExtractNow, modelled in Dafny

ExtractNow is a small Windows program that extracts an archive with the 7-Zip
command-line tool. It can register itself as the handler for archive file
extensions, and it can make itself the default handler by writing a
`UserChoice` registry entry together with the hash Windows expects. This
project models the program's core as pure Dafny functions over immutable
data and proves properties of that model:

- `UserChoiceHash` computes the UserChoice hash. It covers 32-bit
  wrap-around, `BitConverter` byte order, the two mixing loops, UTF-16 code
  units and Base64.
- `Extractor` finds `7z.exe`/`7zG.exe` and `7z.dll`, builds the command line,
  parses progress percentages out of the tool's output and maps the run to a
  result.
- `FileAssociations` covers the ProgId and friendly names, `RegisterOpenWith`
  and `SetAsDefaultWithHash`. The registry is a map from (key, value name) to
  a value.
- `SettingsService` holds the preferences, their normalising setters and the
  loader.
- `SettingsWindow` is the settings form: opening it, choosing or restoring
  the 7-Zip folder, and saving.
- `AppStartup` is `App.OnStartup`: whether the window is shown, and whether
  an extraction starts.
- `MainWindow` is one extraction session: the run guard, the output folder,
  progress and log delivery, the tray icon's fill, opening the output folder,
  and the `finally` block.

Support modules give the .NET library calls the program relies on their
Windows meaning:

- `Int32`: two's complement `int`, bitwise operators and `BitConverter`.
- `Utf16`: string length in code units, and `Encoding.Unicode`.
- `Base64`: `Convert.ToBase64String`.
- `Numerals`: `int.ToString`, `int.TryParse` and hexadecimal formatting.
- `Text`: trimming, case folding and white space.
- `Paths`: `Path.Combine`, `GetDirectoryName`, `GetFileName`,
  `GetFileNameWithoutExtension`, and a file system of canonical paths.

The model's inputs stand in for the environment:

- MD5 is a function parameter.
- A `DateTime`'s file time is a function parameter.
- The user's SID is an input.
- The registry faults are inputs.
- The process run (start, output lines, exit code, cancellation) is an input.
- The file system is an input.
- Explorer's start fault is an input.

Some behaviour of the code is easy to misread, and the model follows the
code in each case:

- A progress line such as `45% 3 files` reports no percentage. The pattern
  `\b(\d{1,3})%\b` needs a word character right after the `%`
  (`Extractor.PercentExamples`).
- The output folder is the archive's folder joined with the archive's name
  without its extension. No timestamp suffix is added when that folder
  exists (`MainWindow.OutputFolderName`).
- A cancellation after the tool has started kills the process, and the exit
  code then decides the result. Only a cancellation before the start yields
  the distinct canceled outcome (`Extractor.ConfigurationErrors`).

## Model

| member | source | states |
|---|---|---|
| UserChoiceHash.ShiftRight | src/Services/UserChoiceHash.cs:147-154 | Shifting by 16 yields the unsigned upper half of the 32-bit value (0..0xFFFF) for negative and non-negative values alike. |
| UserChoiceHash.NegativeShift16 | src/Services/UserChoiceHash.cs:149-152 | For a negative value, the arithmetic shift XOR-ed with 0xFFFF0000 is the unsigned shift by 16. |
| UserChoiceHash.DateTimeHexValue | src/Services/UserChoiceHash.cs:16-20 | The timestamp text is sixteen lower-case hex digits that read back as the file time, high word first. |
| UserChoiceHash.BaseInfoLayout | src/Services/UserChoiceHash.cs:22 | The hashed text starts with the lower-cased extension, SID and ProgId, followed by the sixteen hex digits of the file time. |
| UserChoiceHash.BaseInfoLength | src/Services/UserChoiceHash.cs:15-22 | The hashed text is at least 98 UTF-16 code units long, whatever the inputs. |
| UserChoiceHash.IterationLengthValue | src/Services/UserChoiceHash.cs:51-57 | For any allocatable text, `length` computed with 32-bit `&` and `>>` equals its exact arithmetic value, and it reaches 2 exactly when the text has at least five code units. |
| UserChoiceHash.RoundCount | src/Services/UserChoiceHash.cs:60-64 | The round counter and the minimum buffer size computed in 32 bits do not wrap, and the buffer holds 8 bytes per round. |
| UserChoiceHash.KeysOdd | src/Services/UserChoiceHash.cs:70-71 | Both multipliers of both loops (`x | 1`, then plus an even constant, wrapped) are odd. |
| Int32.OrOneIsOdd | src/Services/UserChoiceHash.cs:104-105 | `x | 1` is `x + 1` for even `x` and `x` for odd `x`, so it is always odd. |
| UserChoiceHash.ReadWords | src/Services/UserChoiceHash.cs:79-82 | Reading the round's second word throws exactly when it starts inside the buffer with fewer than four bytes left. |
| UserChoiceHash.RunLoopInBounds | src/Services/UserChoiceHash.cs:77-96 | With eight bytes per remaining round, the loop never throws and reads both words of every round in full. |
| UserChoiceHash.MixingLoop | src/Services/UserChoiceHash.cs:72-96 | The `while` loop with its early `break` computes the recursive definition of the loop; with a large enough buffer it runs exactly `counter` rounds and ends with `pData = 8 * rounds`. |
| UserChoiceHash.SecondRoundSum | src/Services/UserChoiceHash.cs:124 | Multiplying by the sum `r5 + r1Value` computed in 64 bits gives the same 32-bit result as multiplying by the sum wrapped to 32 bits first. |
| UserChoiceHash.OutHashWords | src/Services/UserChoiceHash.cs:98-99 | Reading the 16-byte `outHash` back with `ToInt32` at offsets 0, 4, 8 and 12 gives the four words the loops stored. |
| UserChoiceHash.HashBytes | src/Services/UserChoiceHash.cs:138-142 | The eight bytes that are encoded are the little-endian XORs of the two loops' results, word by word. |
| UserChoiceHash.ComputeHashShape | src/Services/UserChoiceHash.cs:39-145 | For allocatable text, no read fails; the hash is empty exactly when the text has at most four code units; otherwise it is twelve Base64 characters of which only the last is `=`. |
| UserChoiceHash.GenerateShape | src/Services/UserChoiceHash.cs:13-25 | `Generate` always yields twelve characters ending in a single `=`. |
| Int32.ToInt32GetBytes | src/Services/UserChoiceHash.cs:141-142 | `ToInt32` of the bytes `GetBytes` wrote gives the value back, wherever the bytes sit in a buffer. |
| Int32.GetBytesToInt32 | src/Services/UserChoiceHash.cs:139-140 | `GetBytes` of what `ToInt32` read gives back the four bytes. |
| Base64.DecodeEncode | src/Services/UserChoiceHash.cs:144 | Base64 decoding inverts `ToBase64String` for every byte sequence. |
| Base64.EncodeEight | src/Services/UserChoiceHash.cs:144 | Eight bytes encode to twelve characters, of which exactly the last is padding. |
| Utf16.DecodeEncode | src/Services/UserChoiceHash.cs:41 | A string's UTF-16 code units identify it: decoding them gives the string back. |
| Utf16.EncodeAppend | src/Services/UserChoiceHash.cs:22 | The code units of a concatenation are the code units of its parts. |
| Numerals.UpperHexValue | src/Services/UserChoiceHash.cs:20 | `ToString("X8")` of a value below 16^8 reads back as that value. |
| Numerals.LowerHexValue | src/Services/UserChoiceHash.cs:20 | Lower-casing upper-case hex digits keeps them hex digits and keeps their value. |
| Extractor.ToolFolder | src/Services/Extractor.cs:29-31 | The configured 7-Zip folder is used unless it is null or blank. Otherwise the folder is `Combine(baseDirectory, "7zip")`: a folder named `7zip` inside the program's folder. The result is never empty. |
| Extractor.ResolveFinds | src/Services/Extractor.cs:32-52 | The tool is found exactly when `7z.exe` or `7zG.exe` and `7z.dll` exist; `7z.exe` wins; a missing executable is reported before a missing DLL. |
| Paths.DirectoryName | src/MainWindow.xaml.cs:256 | `GetDirectoryName` is null exactly for an empty or all-space path and for a bare root. Otherwise it is the part before the last separator, with the separators just before it dropped, normalised: it has no `/` and no doubled separator after the first character, and it names the same path as the unnormalised part. |
| Paths.NormalizeSeparators | src/Services/Extractor.cs:65 | Normalisation leaves no `/` and no run of separators after the first character. It keeps the path's canonical form and whether it ends in a separator. |
| Paths.CanonicalShape | src/Services/Extractor.cs:65 | A canonical path has no `/` and no two separators in a row. |
| Paths.CanonicalIdempotent | src/Services/Extractor.cs:65 | Making a canonical path canonical again changes nothing. |
| Paths.DirectoryNameSlash | src/MainWindow.xaml.cs:256 | The directory of `C:/d/a` is `C:\d`: forward slashes come back as `\`. |
| Paths.DirectoryNameEdges | src/Services/Extractor.cs:65 | A bare name has the empty directory, and a bare root `C:\` has none, so the current directory is used. |
| Paths.SiblingPath | src/Services/Extractor.cs:48 | `7z.dll` in the directory of `Combine(folder, exe)` is the file `Combine(folder, "7z.dll")`. |
| Extractor.ArgumentsSplit | src/Services/Extractor.cs:55 | For paths without quotes and not ending in a backslash, the argument string splits into exactly `x`, the archive, `-o` + folder, `-y`, `-bsp1`, `-bso1`. |
| Extractor.PercentValue | src/Services/Extractor.cs:13 | A reported percentage has at most three digits, so it is below 1000. |
| Extractor.PercentValueLeftmost | src/Services/Extractor.cs:76-77 | A line yields `v` exactly when its leftmost match of the pattern captures the digits of `v`, and yields nothing exactly when there is no match. |
| Extractor.PercentExamples | src/Services/Extractor.cs:13 | `45% 3 files` and `45%` report nothing, `45%done` reports 45, and `1234%x` reports nothing. |
| Extractor.LineReports | src/Services/Extractor.cs:72-82 | Every line yields at least one report, and the first is the line's log entry, so a line is logged before its percentage is reported. |
| Extractor.OutputLogged | src/Services/Extractor.cs:72-82 | The log receives every output line exactly once, in order, with `ERR: ` before error lines. |
| Extractor.OutputProgress | src/Services/Extractor.cs:76-80 | Every reported percentage is within 0..100; there is at most one per line; error lines report none. |
| Extractor.ConfigurationErrors | src/Services/Extractor.cs:33-52 | Nothing is launched exactly when the tool is missing or cancellation came before the start. A missing tool fails with its message. The outcome is "canceled" exactly when the tool is found and cancellation came first. |
| Extractor.RunToolOutcome | src/Services/Extractor.cs:85-114 | Success happens exactly when the process started and exited with 0, and then the last report is 100. A non-zero exit quotes the code. A failed start and an exception each carry their message. |
| Extractor.RunToolReports | src/Services/Extractor.cs:72-101 | Percentages stay within 0..100, and once the tool has started, the logged texts are exactly its output lines, in order. |
| Extractor.RunToolLaunch | src/Services/Extractor.cs:57-66 | The process runs the resolved executable with the built arguments, in the archive's directory or else the current one. |
| Extractor.ExtractSucceeds | src/Services/Extractor.cs:22-104 | A successful extraction started the tool, which exited with 0, and logged exactly its output lines, in order. |
| FileAssociations.Dotted | src/Services/FileAssociations.cs:41 | The result always starts with `.`. It is the extension itself exactly when that already starts with `.`, and otherwise `.` followed by the extension. |
| FileAssociations.ProgIdFor | src/Services/FileAssociations.cs:410-414 | The ProgId starts with `ExtractNow_` and contains no `.`. |
| FileAssociations.DotOptional | src/Services/FileAssociations.cs:410-419 | `zip` and `.zip` give the same ProgId and the same friendly name. |
| FileAssociations.ProgIdInjective | src/Services/FileAssociations.cs:413 | Different dotted extensions without `_` get different ProgIds. |
| FileAssociations.KnownProgIdsDistinct | src/Services/FileAssociations.cs:15-19 | The eighteen known extensions give eighteen different ProgIds. |
| FileAssociations.FriendlyName | src/Services/FileAssociations.cs:419 | The friendly name is a stem followed by ` file`. The stem equals the extension with its leading dots removed, ignoring case. It has no leading dot and no lower-case letter, so it is that text in upper case. |
| FileAssociations.FriendlyNameZip | src/Services/FileAssociations.cs:419 | `zip` gives `ZIP file`. |
| FileAssociations.FriendlyNameSevenZip | src/Services/FileAssociations.cs:419 | `.7z` gives `7Z file`: the leading dot is dropped. |
| FileAssociations.GetString | src/Services/FileAssociations.cs:88 | `GetValue(...) as string` is non-null exactly when the value exists and is a string. |
| FileAssociations.RegisterApplication | src/Services/FileAssociations.cs:50-65 | The application entry's writes touch no other key. |
| FileAssociations.RegisterOpenWith | src/Services/FileAssociations.cs:39-140 | Registration touches only the application entry and the extension's own class, OpenWithProgids and ProgId keys. |
| FileAssociations.Associate | src/Services/FileAssociations.cs:112-133 | The writes after the check touch only the extension's class, OpenWithProgids and ProgId keys. |
| FileAssociations.ProgIdEntries | src/Services/FileAssociations.cs:113-119 | Writing the ProgId and its OpenWithProgids entry leaves the extension's own class key and every unrelated key alone. |
| FileAssociations.RegisterAlreadyAssociated | src/Services/FileAssociations.cs:67-110 | The result is `AlreadyAssociated` exactly when the registry already names our ProgId in the user choice, in the default, or in OpenWithProgids with our command. Then only the application entry changes. |
| FileAssociations.ApplicationKeepsAssociation | src/Services/FileAssociations.cs:50-106 | Writing the application entry first does not change whether the program counts as associated. |
| FileAssociations.AssociateWrites | src/Services/FileAssociations.cs:112-133 | The writes of a new registration read back as the ProgId entry, its command and type name. The extension's default becomes our ProgId only when both the user choice and the default were empty; otherwise the old default stays. |
| FileAssociations.RegisterWrites | src/Services/FileAssociations.cs:112-133 | A new registration lists the ProgId and writes its command and type name. It sets the extension's default only when there is neither a user choice nor a default, and never replaces an existing default. |
| FileAssociations.CreateProgIdKeeps | src/Services/FileAssociations.cs:416-434 | The ProgId key gets the friendly name and the open command, the ProgId is listed under OpenWithProgids, and the extension's class default is kept. |
| FileAssociations.RegisterErrors | src/Services/FileAssociations.cs:136-139 | Registration fails exactly on a registry fault, reports the fault's message, and leaves the registry as it was. |
| FileAssociations.SuccessAssociates | src/Services/FileAssociations.cs:67-110 | After a successful registration, the registry's own test for an existing association holds: our ProgId is listed with our command. |
| FileAssociations.RegisterTwice | src/Services/FileAssociations.cs:39-140 | Right after a successful registration, registering again answers `AlreadyAssociated`. |
| FileAssociations.HashTimestamp | src/Services/FileAssociations.cs:373-374 | The hashed timestamp is the current time with seconds and fractions dropped: a whole minute, at most one minute earlier. |
| FileAssociations.SameMinute | src/Services/FileAssociations.cs:373-374 | Two moments within the same minute give the same timestamp. |
| FileAssociations.WriteUserChoice | src/Services/FileAssociations.cs:379-397 | Success happens exactly when the key is created and both writes succeed. A failure carries a message. A failed delete keeps the old values. A throw after the hash write keeps the hash. No other key changes. |
| FileAssociations.DeleteKey | src/Services/FileAssociations.cs:383 | Deleting a key removes exactly its values. |
| FileAssociations.RegisterKeepsUserChoice | src/Services/FileAssociations.cs:39-140 | Registration never touches a UserChoice key. |
| FileAssociations.SetAsDefaultChecks | src/Services/FileAssociations.cs:358-370 | A registration error is returned as it is, and a missing SID fails before the UserChoice key is touched. |
| FileAssociations.SetAsDefaultWrites | src/Services/FileAssociations.cs:372-397 | After success, the UserChoice key holds the hash of the current minute and our ProgId, and nothing else unless the delete failed. |
| FileAssociations.SameMinuteSameResult | src/Services/FileAssociations.cs:372-377 | Calling twice within the same minute gives the same result and the same registry. |
| FileAssociations.SetAsDefaultSucceeds | src/Services/FileAssociations.cs:348-408 | For text of a size .NET can hold, success happens exactly when registration succeeds, the SID is known, the key is created and both writes succeed. |
| SettingsService.SetShowWindowOnAssociationLaunch | src/Services/SettingsService.cs:30-34 | The flag is stored as given, and nothing else changes. |
| SettingsService.SetShowWindowThresholdMB | src/Services/SettingsService.cs:36-40 | A negative threshold is stored as 0, any other as given, and nothing else changes. |
| SettingsService.SetShowTrayIconDuringExtraction | src/Services/SettingsService.cs:42-46 | The flag is stored as given, and nothing else changes. |
| SettingsService.SetSevenZipPath | src/Services/SettingsService.cs:48-52 | A null or blank path is stored as null, any other as given, and nothing else changes. |
| SettingsService.SetOpenOutputFolderOnComplete | src/Views/SettingsWindow.xaml.cs:54 | The flag is stored as given, and nothing else changes. |
| SettingsService.SetCloseAppAfterExtraction | src/Views/SettingsWindow.xaml.cs:55 | The flag is stored as given, and nothing else changes. |
| SettingsService.Load | src/Services/SettingsService.cs:54-68 | A deserialised non-null object is taken as it is; a missing, unreadable or null file gives the defaults. |
| SettingsService.SettersKeepNormalised | src/Services/SettingsService.cs:36-52 | The defaults are normalised (no negative threshold, no blank path), and every setter keeps settings normalised. |
| SettingsService.LoadDoesNotNormalise | src/Services/SettingsService.cs:59-63 | A loaded file with a negative threshold and a blank path is taken unnormalised. |
| SettingsService.SetGetRoundTrip | src/Services/SettingsService.cs:30-52 | Storing what a getter returns changes nothing for normalised settings, and every setter is idempotent. |
| SettingsWindow.DisplayPath | src/Views/SettingsWindow.xaml.cs:92-97 | The box shows the chosen folder, else `7zip` under the program's folder. |
| SettingsWindow.ThresholdText | src/Views/SettingsWindow.xaml.cs:23 | The box is empty exactly when the threshold is not positive. |
| SettingsWindow.ParseThreshold | src/Views/SettingsWindow.xaml.cs:46-53 | The saved threshold is the parsed number when that is positive, else 0, and never negative. |
| SettingsWindow.OpenAsWritten | src/Views/SettingsWindow.xaml.cs:12-32 | As written, the path box always shows the bundled folder, while the selection is the configured folder unless that is blank. |
| SettingsWindow.OpenAsWrittenShowsDefault | src/Views/SettingsWindow.xaml.cs:28-31 | With `D:\7-Zip` configured, the freshly opened window selects it but shows `C:\ExtractNow\7zip`. |
| SettingsWindow.Open | src/Views/SettingsWindow.xaml.cs:12-32 | The corrected constructor shows the folder in effect, selects the configured folder unless it is blank, and fills the threshold box from the setting. |
| SettingsWindow.Select | src/Views/SettingsWindow.xaml.cs:113-142 | A valid, non-blank folder confirmed with OK becomes the selection and is shown. Anything else changes nothing. |
| SettingsWindow.Restore | src/Views/SettingsWindow.xaml.cs:144-149 | Restoring selects the bundled folder and shows it, and nothing else changes. |
| SettingsWindow.SelectionInvariant | src/Views/SettingsWindow.xaml.cs:113-149 | Selecting and restoring keep the box in step with the selection, and a selection is always a valid folder. |
| SettingsWindow.ThresholdRoundTrip | src/Views/SettingsWindow.xaml.cs:23-53 | The number a window shows is the number it saves, and a non-positive stored number is saved as 0. |
| SettingsWindow.ThresholdTrimmed | src/Views/SettingsWindow.xaml.cs:46 | Surrounding white space does not change the saved threshold, and blank text saves 0. |
| SettingsWindow.SaveStores | src/Views/SettingsWindow.xaml.cs:34-69 | The five preferences are always stored from the form. The window closes exactly when there is no custom folder or it is valid, and only then does the stored path change. |
| SettingsWindow.SaveUnchanged | src/Views/SettingsWindow.xaml.cs:12-69 | Opening the corrected window and saving it untouched gives back the same normalised settings. |
| SettingsWindow.ValidFolderIsFound | src/Views/SettingsWindow.xaml.cs:99-111 | The form's folder check accepts a folder exactly when the extractor finds the tool there. |
| SettingsWindow.SavedFolderIsUsed | src/Views/SettingsWindow.xaml.cs:58-67 | After a save that closes the window, the extractor searches the custom folder and finds the tool there. |
| Numerals.ParseIntToString | src/Views/SettingsWindow.xaml.cs:23-46 | `int.TryParse` of `int.ToString` gives the number back, negatives included. |
| Text.TrimIdempotent | src/Views/SettingsWindow.xaml.cs:46 | Trimming twice is trimming once. |
| AppStartup.ThresholdBytesExact | src/App.xaml.cs:28 | `(long)mb * 1024L * 1024L` never wraps: it is exactly `mb` mebibytes. |
| AppStartup.OnStartup | src/App.xaml.cs:10-63 | The window is hidden exactly for an existing file argument when the window is not wanted on association launches and no positive threshold is reached. The first argument is extracted exactly when it exists. The hidden window closes when done. |
| AppStartup.NoFileShows | src/App.xaml.cs:58-62 | Without an existing file argument, the window is shown and nothing starts. |
| AppStartup.SizeCheckNeutral | src/App.xaml.cs:23-35 | A threshold of 0 turns the size check off, and a file that cannot be measured leaves the decision as without a threshold. |
| MainWindow.FillHeightAsWritten | src/MainWindow.xaml.cs:514-515 | The fill is within 0..12 pixels, 0 for a non-positive percentage, and otherwise within half a pixel of 12 × percent / 100. |
| MainWindow.FillHeightAsWrittenEmpty | src/MainWindow.xaml.cs:515 | Percentages 1 to 4 draw no fill; 5 draws one pixel. |
| MainWindow.FillHeight | src/MainWindow.xaml.cs:261-262 | The corrected fill is 0 exactly for a non-positive percentage, and full exactly from 96 up. |
| MainWindow.FillHeightMonotone | src/MainWindow.xaml.cs:515 | Both fills grow with the percentage, and they differ only for percentages 1 to 4. |
| MainWindow.TrayFill | src/MainWindow.xaml.cs:513-521 | An existing icon's fill is within 0..12 pixels. |
| MainWindow.AppendLog | src/MainWindow.xaml.cs:307-311 | Appending adds exactly one line at the end, and nothing else changes. |
| MainWindow.UpdateTrayIcon | src/MainWindow.xaml.cs:495-499 | Only an existing icon with the tray wanted is redrawn, with the new percentage. Nothing else changes, and no icon is created. |
| MainWindow.EnsureTrayIcon | src/MainWindow.xaml.cs:452-478 | Afterwards an icon exists exactly when one existed or the tray is wanted. A newly created icon is drawn for one percent. Nothing but the icon changes. |
| MainWindow.OnProgress | src/MainWindow.xaml.cs:242-249 | The bar and the last percentage show the clamped percentage, the status shows it as reported, and an existing icon shows it when the tray is wanted. The log, the run and completion are untouched. |
| MainWindow.OnReportsEffect | src/MainWindow.xaml.cs:242-250 | Delivering reports keeps the window within bounds and changes only the log, the bar, the status and the icon's fill. |
| MainWindow.OnReportsLog | src/MainWindow.xaml.cs:250 | Delivering reports appends exactly the logged texts, in order. |
| MainWindow.OpenOutputFolderIfEnabled | src/MainWindow.xaml.cs:313-337 | Opening changes at most the opened flag, the last folder and the log, and the log only grows. |
| MainWindow.OpenWhenGateOpen | src/MainWindow.xaml.cs:317-325 | The folder is opened and logged exactly when all five checks pass, in order; otherwise nothing changes. |
| MainWindow.OpenAtMostOnce | src/MainWindow.xaml.cs:319-324 | Once opened, asking again in the same run changes nothing, and the same folder, in any case, never passes the gate again. |
| MainWindow.Finish | src/MainWindow.xaml.cs:298-304 | The `finally` block leaves no run, no cancel button and no icon, and nothing else changes. |
| MainWindow.Succeed | src/MainWindow.xaml.cs:264-281 | Success fills the bar, shows "Done", enables the open button and schedules the close exactly when the setting asks for it. |
| MainWindow.Shown | src/MainWindow.xaml.cs:263-297 | Showing an outcome only grows the log. Only a success can open the folder or schedule the close. |
| MainWindow.BusyIgnoresRequests | src/MainWindow.xaml.cs:216-221 | During a run, a new request only logs that it is ignored; a drop, the shortcut and `Loaded` do nothing. |
| MainWindow.AwaitingIsRunning | src/MainWindow.xaml.cs:223-262 | The extractor is awaited exactly for an existing archive with a parent folder and a created output folder. The window is then running, cancelable and not openable, and logs only the output folder. |
| MainWindow.MissingArchiveStaysIdle | src/MainWindow.xaml.cs:232-237 | A missing archive leaves the window idle, with a fresh log naming it and the cancel button still enabled. |
| MainWindow.OutputFolderName | src/MainWindow.xaml.cs:256 | The output folder sits in the archive's folder and is named after the archive without its extension. |
| Paths.FileNameWithoutExtensionPrefix | src/MainWindow.xaml.cs:256 | The name without extension is the file name cut at its last `.`, or the whole name when it has none. |
| MainWindow.TrayEmptyAtStart | src/MainWindow.xaml.cs:260-262 | With the tray on, the icon shown while the extractor is awaited is drawn for one percent and has no fill. The corrected fill would be one pixel. |
| MainWindow.PrepareFresh | src/MainWindow.xaml.cs:223-237 | An idle window starts a fresh, uncompleted run within bounds. The run is skipped exactly when the archive is missing. |
| MainWindow.ConcludeIdle | src/MainWindow.xaml.cs:263-304 | After the await, the window is idle and within bounds, with no icon, and the log only grows. |
| MainWindow.ConcludeStatus | src/MainWindow.xaml.cs:264-292 | A run completes exactly on success. "Done" and the open button go with completion, and the status is "Done", "Failed" or "Canceled". |
| MainWindow.ConcludeOpens | src/MainWindow.xaml.cs:264-281 | The folder opens exactly on a success that passes the gate. The close is scheduled exactly on a success with the setting on. The last opened folder changes only when the folder opens. |
| MainWindow.SucceedOpens | src/MainWindow.xaml.cs:266-271 | On success, the folder opens exactly when the setting is on, the folder exists and is not blank, and it differs, ignoring case, from the folder opened last. |
| MainWindow.EveryRunEndsIdle | src/MainWindow.xaml.cs:214-305 | Every run from an idle window ends idle and within bounds. "Done" goes with completion. Only a completed run may open the folder or schedule the close. |
| MainWindow.CompleteSucceeds | src/MainWindow.xaml.cs:263-271 | A completed run had a successful extraction, shows a full bar, opens the folder as the gate allows, and logs every logged text of the extractor, in order. |
| MainWindow.StartAwaits | src/MainWindow.xaml.cs:254-263 | A run that reaches the extractor ends as the awaited extraction and what follows it; any other run ends uncompleted. |
| MainWindow.AwaitedSuccess | src/MainWindow.xaml.cs:258-271 | From the window the await finds, a successful run logs the output folder and then every output line of the tool, in order. |
| MainWindow.SuccessfulRun | src/MainWindow.xaml.cs:214-305 | A successful run opens the folder exactly when the setting is on and the folder differs from the last one opened. Its log starts with the output folder and then every output line, in order. |
| Text.EqualsIgnoreCaseEquivalence | src/MainWindow.xaml.cs:321 | Ordinal case-insensitive equality is reflexive, symmetric and transitive. |

## Left out

- Extractor.RunTool: the model delivers every output line before the exit is seen. The source does not promise this. The result completes from the `Exited` event (Extractor.cs:83), and the source never waits for the output streams to drain. Lines can therefore arrive after the exit code, after "Done", or even after the `finally` block. `Progress<T>` also posts each report to the UI thread asynchronously.
- MainWindow.StartExtraction: it delivers all reports before the outcome is shown, for the same reason as Extractor.RunTool. Late lines and reordered reports are not modelled.
- MainWindow.SuccessfulRun: "the log holds every output line, in order, right after the output folder" relies on that ordering. In the source, late lines may land after "Extraction completed successfully." or be lost with the window.
- Extractor.ExtractSucceeds and MainWindow.AwaitedSuccess: same ordering assumption as Extractor.RunTool.
- FileAssociations.RegisterOpenWith: a registry fault is taken to happen before the first write. The source can throw inside lines 116-130 after the application entry (lines 50-62) is written. That leaves a partly written registry, which is not modelled.
- FileAssociations.RegisterErrors: "a fault writes nothing" holds only under the same before-the-first-write assumption.
- FileAssociations.RegisterAlreadyAssociated: registry key names are compared exactly, but Windows ignores their case. So after `.zip` is registered, registering `.ZIP` writes a second registration and answers `Success`. The source opens the same key and answers `AlreadyAssociated`. Folding every key to one case would require restating every frame property of the module, so it is not done.
- FileAssociations.RegisterOpenWith: for the same reason, it treats `Class(".ZIP")` and `Class(".zip")` as different keys, as do SetAsDefaultWithHash and its lemmas. Value names are also compared exactly. The source compares OpenWithProgids names with `Ordinal` itself (FileAssociations.cs:73-79), so that comparison matches; the registry's own case folding of value names is not modelled.
- FileAssociations.SetAsDefaultWithHash: a fault inside the inner `RegisterOpenWith` is modelled as above. The `SHChangeNotify` call (line 400) is not modelled.
- Extractor.PercentValue: `\w`, `\d` and `\b` are restricted to ASCII. .NET's regular expressions are Unicode-aware, so `45%é` reports 45 in the source but nothing here, and digits from other scripts are not matched.
- SettingsService.SetSevenZipPath: white space is the ASCII set (space, U+0009..U+000D). `string.IsNullOrWhiteSpace` also counts U+00A0 and other Unicode spaces, so a path of only such characters is stored here but cleared by the source.
- SettingsWindow.ParseThreshold: `string.Trim` and `int.TryParse` use the same ASCII white space, so Unicode spaces around the number are not trimmed here.
- Text.EqualsIgnoreCase: ordinal case folding covers only `A`..`Z`. `OrdinalIgnoreCase` also folds non-ASCII letters. The same goes for `ToLower` and `ToUpperInvariant` in the hash text and the friendly name.
- SettingsService.Settings: `OpenOutputFolderOnComplete` and `CloseAppAfterExtraction` are read and written by the windows (SettingsWindow.xaml.cs:24-27, :54-55; MainWindow.xaml.cs:273, :317), but the settings class (SettingsService.cs:12-18) does not declare them. Their storage and their default `false` are the model's own choices.
- MainWindow reads further settings that the settings class does not declare (`RestoreDefaultWindowSizeOnRestart`, `WindowWidth`, `WindowHeight`, `WindowMaximized`, MainWindow.xaml.cs:131-150). They belong to window geometry, which is not modelled.
- UserChoiceHash.ComputeHash: MD5 is a parameter, not an implementation of RFC 1321.
- UserChoiceHash.Generate: `DateTime.ToFileTimeUtc` (time zone conversion) is a parameter. `GetCurrentUserSid` (Windows identity) is an input.
- UserChoiceHash.ComputeHashShape: the shape is proved only for text up to .NET's maximum string length (0x3FFFFFDF code units). Beyond that the runtime cannot allocate the string.
- FileAssociations.SetAsDefaultWithHash: the `HashReadFailed` message stands in for the exception text of a failing `BitConverter.ToInt32`. That failure cannot happen for allocatable text (`FileAssociations.SetAsDefaultSucceeds`).
- Registry, file system and process I/O are inputs, not calls. The registry is a map of (key, value name) to value; key deletion and creation are map updates.
- The rest of FileAssociations.cs is not part of this model: `EnsureAssociationMetadataRegistered`, `CleanupAssociationRegistryEntries`, `SetAsDefaultHandler`, the chooser dialogs and the dummy temp file.
- The WPF user interface is not modelled: drawing, themes, keyboard routing, message boxes, window geometry, and the About and RegistrationStatus windows. Explorer starts and the delayed close are reduced to a log line and a flag.
- SettingsService: JSON serialisation and file writes are not modelled. `Load` receives what deserialisation produced, and `Save` is not a separate operation.
- Extractor.Arguments: the split into arguments follows the C runtime's quoting rules only for paths without quotes and without a trailing backslash (`Extractor.ArgumentsSplit`).
- Paths: UNC paths (`\\server\share`), device paths and the long-path prefix are not modelled. `GetDirectoryName` normalises separators as .NET on Windows does, but takes a leading separator as a one-character root. Canonical paths merge runs of separators but do not resolve `.`, `..` or letter case.
- Extractor.RunTool: killing the process tree on cancellation (`TryKill`) is reduced to the exit code the killed process returns.

## Findings

| source | as written | input that shows it | evidently intended | confidence | as-written member | corrected member |
|---|---|---|---|---|---|---|
| src/Views/SettingsWindow.xaml.cs:28-31 | The path box is filled from `GetDisplaySevenZipPath()` before `_selectedSevenZipPath` is assigned, so it always shows the bundled folder. | Settings with `SevenZipPath = "D:\7-Zip"`, program in `C:\ExtractNow`. The window selects `D:\7-Zip` but the box shows `C:\ExtractNow\7zip`. | The box shows the folder in effect (the comment at :94 says "the effective folder path"). | not executed | SettingsWindow.OpenAsWritten, SettingsWindow.OpenAsWrittenShowsDefault | SettingsWindow.Open |
| src/MainWindow.xaml.cs:515 | `(int)Math.Round(12 * p / 100.0)` rounds percentages 1 to 4 down to 0 pixels. | The tray setting is on and a run starts. `EnsureTrayIcon` draws 1 (:475), and `UpdateTrayIcon(Math.Max(1, _lastPercent))` (:262) draws 1 again, since every run resets `_lastPercent` to 0. Both draw no fill. | "Ensure some visible fill" (:261): at least one pixel for a positive percentage. | not executed | MainWindow.FillHeightAsWritten, MainWindow.FillHeightAsWrittenEmpty, MainWindow.TrayEmptyAtStart | MainWindow.FillHeight, MainWindow.FillHeightMonotone |
