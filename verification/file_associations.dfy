/** `FileAssociations`: registering the program as a handler for archive
    extensions in the current user's part of the registry, and making it the
    default handler by writing a `UserChoice` entry with its hash.

    The registry is a map from (key, value name) to a value; the empty name
    is a key's default value.  Process information, the user's SID, the clock
    and the faults the registry may raise are inputs. */
module FileAssociations {
  import opened Wrappers
  import opened Text
  import opened Paths
  import opened Utf16
  import opened Int32
  import opened UserChoiceHash

  /** The extensions the program offers to handle. */
  const KnownArchiveExtensions: seq<string> := [
    ".zip", ".7z", ".rar", ".tar", ".gz", ".bz2", ".xz", ".lz", ".lzma",
    ".cab", ".iso", ".wim", ".arj", ".lzh", ".z", ".tgz", ".tbz2", ".txz"]

  // ----- names ---------------------------------------------------------------

  /** An extension with a leading '.', added when missing. */
  function Dotted(extension: string): (r: string)
    ensures |r| > 0 && r[0] == '.'
    ensures r == extension || r == "." + extension
    ensures |extension| > 0 && extension[0] == '.' <==> r == extension
  {
    if |extension| > 0 && extension[0] == '.' then extension else "." + extension
  }

  /** `GetProgIdForExtension`: "ExtractNow" and the dotted extension with
      every '.' turned into '_'. */
  function ProgIdFor(extension: string): (r: string)
    ensures StartsWith(r, "ExtractNow_") && '.' !in r
  {
    var dotted := Dotted(extension);
    var replaced := ReplaceChar(dotted, '.', '_');
    var r := "ExtractNow" + replaced;
    assert r[10] == replaced[0];
    r
  }

  /** The friendly type name: the extension without its leading dots, in
      upper case, and " file". */
  function FriendlyName(extension: string): (r: string)
    ensures |r| >= 5 && r[|r| - 5..] == " file"
    ensures var stem := r[..|r| - 5];
      (|stem| > 0 ==> stem[0] != '.') && forall i :: 0 <= i < |stem| ==> !IsLowerAscii(stem[i])
    ensures EqualsIgnoreCase(Some(r[..|r| - 5]), Some(TrimStartChar(extension, '.')))
  {
    var stem := ToUpper(TrimStartChar(extension, '.'));
    assert ToUpper(stem) == stem;
    var r := stem + " file";
    assert r[..|r| - 5] == stem;
    r
  }

  /** The friendly name of "zip". */
  lemma FriendlyNameZip()
    ensures FriendlyName("zip") == "ZIP file"
  {
    assert ToUpper(TrimStartChar("zip", '.')) == "ZIP" by {
      assert TrimStartChar("zip", '.') == "zip";
      UpperExample("zip", "ZIP");
    }
    assert "ZIP" + " file" == "ZIP file";
  }

  /** The friendly name of ".7z": the leading dot goes. */
  lemma FriendlyNameSevenZip()
    ensures FriendlyName(".7z") == "7Z file"
  {
    assert ToUpper(TrimStartChar(".7z", '.')) == "7Z" by {
      assert TrimStartChar(".7z", '.') == "7z" by {
        assert ".7z"[1..] == "7z";
      }
      UpperExample("7z", "7Z");
    }
    assert "7Z" + " file" == "7Z file";
  }

  /** `ToUpper` on a short literal, letter by letter. */
  lemma UpperExample(s: string, u: string)
    requires |s| == |u| && forall i :: 0 <= i < |s| ==> UpperChar(s[i]) == u[i]
    ensures ToUpper(s) == u
  {
  }

  /** "zip" and ".zip" name the same ProgId and the same file type. */
  lemma DotOptional(extension: string)
    ensures ProgIdFor(extension) == ProgIdFor(Dotted(extension))
    ensures FriendlyName(extension) == FriendlyName(Dotted(extension))
  {
    if !(|extension| > 0 && extension[0] == '.') {
      assert TrimStartChar("." + extension, '.') == TrimStartChar(extension, '.') by {
        assert ("." + extension)[1..] == extension;
      }
    }
  }

  predicate NoUnderscore(s: string) {
    forall i :: 0 <= i < |s| ==> s[i] != '_'
  }

  /** Turning '.' into '_' loses nothing on text without '_'. */
  lemma ReplaceInjective(a: string, b: string)
    requires NoUnderscore(a) && NoUnderscore(b)
    requires ReplaceChar(a, '.', '_') == ReplaceChar(b, '.', '_')
    ensures a == b
  {
    var ra, rb := ReplaceChar(a, '.', '_'), ReplaceChar(b, '.', '_');
    forall i | 0 <= i < |a|
      ensures a[i] == b[i]
    {
      assert ra[i] == rb[i];
    }
  }

  /** Dotted extensions without '_' have pairwise different ProgIds. */
  lemma ProgIdInjective(a: string, b: string)
    requires |a| > 0 && a[0] == '.' && NoUnderscore(a)
    requires |b| > 0 && b[0] == '.' && NoUnderscore(b)
    requires a != b
    ensures ProgIdFor(a) != ProgIdFor(b)
  {
    if ProgIdFor(a) == ProgIdFor(b) {
      var ra, rb := ReplaceChar(a, '.', '_'), ReplaceChar(b, '.', '_');
      assert ra == ProgIdFor(a)[10..] && rb == ProgIdFor(b)[10..];
      ReplaceInjective(a, b);
    }
  }

  /** The eighteen known extensions give eighteen different ProgIds. */
  lemma KnownProgIdsDistinct()
    ensures |KnownArchiveExtensions| == 18
    ensures forall i, j :: 0 <= i < j < |KnownArchiveExtensions| ==>
      ProgIdFor(KnownArchiveExtensions[i]) != ProgIdFor(KnownArchiveExtensions[j])
  {
    var k := KnownArchiveExtensions;
    forall i | 0 <= i < |k|
      ensures |k[i]| > 0 && k[i][0] == '.' && NoUnderscore(k[i])
    {
    }
    forall i, j | 0 <= i < j < |k|
      ensures ProgIdFor(k[i]) != ProgIdFor(k[j])
    {
      ProgIdInjective(k[i], k[j]);
    }
  }

  // ----- the registry --------------------------------------------------------

  /** The registry keys the program uses, all under HKEY_CURRENT_USER. */
  datatype Key =
    | Application(exeName: string)         // Software\Classes\Applications\<exe>
    | ApplicationCommand(exeName: string)  // ...\Applications\<exe>\shell\open\command
    | SupportedTypes(exeName: string)      // ...\Applications\<exe>\SupportedTypes
    | Class(name: string)                  // Software\Classes\<extension or ProgId>
    | OpenWithProgids(extension: string)   // Software\Classes\<extension>\OpenWithProgids
    | ProgIdIcon(progId: string)           // Software\Classes\<ProgId>\DefaultIcon
    | ProgIdCommand(progId: string)        // Software\Classes\<ProgId>\shell\open\command
    | UserChoice(extension: string)        // ...\Explorer\FileExts\<extension>\UserChoice

  /** A value: a string, or the empty value of kind `None`. */
  datatype Value = Text(text: string) | Empty

  type Registry = map<(Key, string), Value>

  /** `GetValue(name) as string`: null when absent or not a string. */
  function GetString(reg: Registry, key: Key, name: string): (r: Option<string>)
    ensures r.Some? <==> (key, name) in reg && reg[(key, name)].Text?
  {
    if (key, name) in reg && reg[(key, name)].Text? then Some(reg[(key, name)].text) else None
  }

  /** `"<appPath>" "%1"`: the command that opens a file with the program. */
  function OpenCommand(appPath: string): string {
    "\"" + appPath + "\" \"%1\""
  }

  datatype RegistrationState = Success | AlreadyAssociated | Error

  /** `RegistrationResult`: the state, and a message for errors. */
  datatype RegistrationResult = RegistrationResult(state: RegistrationState, error: Option<string>)

  /** A result and the registry after the call. */
  datatype Registration = Registration(result: RegistrationResult, registry: Registry)

  // ----- RegisterOpenWith ----------------------------------------------------

  /** Whether the program already handles the extension: the user's choice
      names our ProgId (in any case), or there is no user choice and the class
      default names it, or our ProgId is listed under OpenWithProgids (exact
      name) with the expected command (in any case). */
  predicate IsAlreadyAssociated(reg: Registry, extension: string, appPath: string) {
    var progId := ProgIdFor(extension);
    var userChoice := GetString(reg, UserChoice(extension), "ProgId");
    var weAreDefault :=
      EqualsIgnoreCase(userChoice, Some(progId)) ||
      (IsNullOrEmpty(userChoice) && EqualsIgnoreCase(GetString(reg, Class(extension), ""), Some(progId)));
    weAreDefault ||
      ((OpenWithProgids(extension), progId) in reg &&
       EqualsIgnoreCase(GetString(reg, ProgIdCommand(progId), ""), Some(OpenCommand(appPath))))
  }

  /** The keys under `Software\Classes\Applications\<exe>`. */
  predicate ApplicationEntry(key: Key) {
    key.Application? || key.ApplicationCommand? || key.SupportedTypes?
  }

  /** The program's own application entry: its name, its command and the
      extension among its supported types. */
  function RegisterApplication(reg: Registry, extension: string, appPath: string): (r: Registry)
    ensures forall key: Key, name: string :: !ApplicationEntry(key) ==>
      GetString(r, key, name) == GetString(reg, key, name) && ((key, name) in r <==> (key, name) in reg)
  {
    var exeName := FileName(appPath);
    reg[(Application(exeName), "FriendlyAppName") := Text("ExtractNow")]
       [(ApplicationCommand(exeName), "") := Text(OpenCommand(appPath))]
       [(SupportedTypes(exeName), extension) := Text("")]
  }

  /** `CreateOrUpdatePerExtensionProgId`: the ProgId's type name, icon and
      command. */
  function CreateProgId(reg: Registry, extension: string, appPath: string): Registry {
    var progId := ProgIdFor(extension);
    reg[(Class(progId), "") := Text(FriendlyName(extension))]
       [(ProgIdIcon(progId), "") := Text(appPath + ",0")]
       [(ProgIdCommand(progId), "") := Text(OpenCommand(appPath))]
  }

  /** The keys `RegisterOpenWith` reads or writes for the extension besides
      the application entry. */
  predicate Associating(key: Key, extension: string) {
    var progId := ProgIdFor(extension);
    key == Class(extension) || key == OpenWithProgids(extension) || key == Class(progId) ||
    key == ProgIdIcon(progId) || key == ProgIdCommand(progId)
  }

  /** `RegisterOpenWith(extension)`.  `fault` is the message of an exception
      the registry raises, taken to happen before the first write. */
  function RegisterOpenWith(reg: Registry, extension: string, appPath: string, fault: Option<string>): (r: Registration)
    ensures forall key: Key, name: string :: !ApplicationEntry(key) && !Associating(key, Dotted(extension)) ==>
      GetString(r.registry, key, name) == GetString(reg, key, name)
  {
    var extension := Dotted(extension);
    if fault.Some? then Registration(RegistrationResult(Error, fault), reg)
    else
      var reg1 := RegisterApplication(reg, extension, appPath);
      if IsAlreadyAssociated(reg1, extension, appPath) then
        Registration(RegistrationResult(AlreadyAssociated, None), reg1)
      else
        Registration(RegistrationResult(Success, None), Associate(reg1, extension, appPath))
  }

  /** The writes of a registration not yet in place: the ProgId, its entry
      under OpenWithProgids, and the extension's default when there is
      neither a user choice nor a default. */
  function Associate(reg: Registry, extension: string, appPath: string): (r: Registry)
    ensures forall key: Key, name: string :: !Associating(key, extension) ==>
      GetString(r, key, name) == GetString(reg, key, name)
  {
    var userChoice := GetString(reg, UserChoice(extension), "ProgId");
    var reg2 := ProgIdEntries(reg, extension, appPath);
    if IsNullOrEmpty(userChoice) && IsNullOrEmpty(GetString(reg2, Class(extension), ""))
    then reg2[(Class(extension), "") := Text(ProgIdFor(extension))]
    else reg2
  }

  /** The ProgId's keys, and the ProgId listed under OpenWithProgids. */
  function ProgIdEntries(reg: Registry, extension: string, appPath: string): (r: Registry)
    ensures forall key: Key, name: string :: !Associating(key, extension) || key == Class(extension) ==>
      GetString(r, key, name) == GetString(reg, key, name)
  {
    var progId := ProgIdFor(extension);
    assert |progId| > |extension|;
    CreateProgId(reg, extension, appPath)[(OpenWithProgids(extension), progId) := Empty]
  }

  /** Registration answers `AlreadyAssociated` exactly when the registry
      already says so, and then leaves every key but the application entry as
      it was. */
  lemma RegisterAlreadyAssociated(reg: Registry, extension: string, appPath: string)
    ensures var r := RegisterOpenWith(reg, extension, appPath, None);
      (r.result.state == AlreadyAssociated <==> IsAlreadyAssociated(reg, Dotted(extension), appPath)) &&
      (r.result.state == AlreadyAssociated ==>
        r.result.error.None? &&
        forall key: Key, name: string :: !ApplicationEntry(key) ==>
          GetString(r.registry, key, name) == GetString(reg, key, name))
  {
    ApplicationKeepsAssociation(reg, Dotted(extension), appPath);
  }

  /** Writing the application entry does not change whether the program is
      already associated. */
  lemma ApplicationKeepsAssociation(reg: Registry, ext: string, appPath: string)
    ensures IsAlreadyAssociated(RegisterApplication(reg, ext, appPath), ext, appPath) ==
            IsAlreadyAssociated(reg, ext, appPath)
  {
    var reg1 := RegisterApplication(reg, ext, appPath);
    var progId := ProgIdFor(ext);
    assert GetString(reg1, UserChoice(ext), "ProgId") == GetString(reg, UserChoice(ext), "ProgId");
    assert GetString(reg1, Class(ext), "") == GetString(reg, Class(ext), "");
    assert GetString(reg1, ProgIdCommand(progId), "") == GetString(reg, ProgIdCommand(progId), "");
    assert (OpenWithProgids(ext), progId) in reg1 <==> (OpenWithProgids(ext), progId) in reg;
  }

  /** A registration that is not already in place lists our ProgId, writes
      its type name and command, and writes the extension's default only when
      there is no user choice and no default yet: an existing default is
      never replaced. */
  lemma RegisterWrites(reg: Registry, extension: string, appPath: string)
    ensures var r := RegisterOpenWith(reg, extension, appPath, None);
      var ext := Dotted(extension);
      var progId := ProgIdFor(ext);
      var before := GetString(reg, Class(ext), "");
      r.result.state == Success ==>
        (OpenWithProgids(ext), progId) in r.registry &&
        GetString(r.registry, ProgIdCommand(progId), "") == Some(OpenCommand(appPath)) &&
        GetString(r.registry, Class(progId), "") == Some(FriendlyName(ext)) &&
        (if IsNullOrEmpty(GetString(reg, UserChoice(ext), "ProgId")) && IsNullOrEmpty(before)
         then GetString(r.registry, Class(ext), "") == Some(progId)
         else GetString(r.registry, Class(ext), "") == before)
  {
    var ext := Dotted(extension);
    var reg1 := RegisterApplication(reg, ext, appPath);
    if !IsAlreadyAssociated(reg1, ext, appPath) {
      assert GetString(reg1, Class(ext), "") == GetString(reg, Class(ext), "");
      assert GetString(reg1, UserChoice(ext), "ProgId") == GetString(reg, UserChoice(ext), "ProgId");
      AssociateWrites(reg1, ext, appPath);
    }
  }

  /** What `Associate` writes, read back from the registry it returns. */
  lemma AssociateWrites(reg: Registry, ext: string, appPath: string)
    ensures var r := Associate(reg, ext, appPath);
      var progId := ProgIdFor(ext);
      var before := GetString(reg, Class(ext), "");
      (OpenWithProgids(ext), progId) in r &&
      GetString(r, ProgIdCommand(progId), "") == Some(OpenCommand(appPath)) &&
      GetString(r, Class(progId), "") == Some(FriendlyName(ext)) &&
      (if IsNullOrEmpty(GetString(reg, UserChoice(ext), "ProgId")) && IsNullOrEmpty(before)
       then GetString(r, Class(ext), "") == Some(progId)
       else GetString(r, Class(ext), "") == before)
  {
    var reg2 := ProgIdEntries(reg, ext, appPath);
    CreateProgIdKeeps(reg, ext, appPath);
    assert GetString(reg2, Class(ext), "") == GetString(reg, Class(ext), "");
  }

  /** Writing the ProgId leaves the extension's own class key alone, installs the
      open command and the friendly name, and lists the ProgId under OpenWithProgids. */
  lemma CreateProgIdKeeps(reg: Registry, ext: string, appPath: string)
    ensures GetString(ProgIdEntries(reg, ext, appPath), Class(ext), "") == GetString(reg, Class(ext), "")
    ensures GetString(ProgIdEntries(reg, ext, appPath), ProgIdCommand(ProgIdFor(ext)), "") == Some(OpenCommand(appPath))
    ensures GetString(ProgIdEntries(reg, ext, appPath), Class(ProgIdFor(ext)), "") == Some(FriendlyName(ext))
    ensures (OpenWithProgids(ext), ProgIdFor(ext)) in ProgIdEntries(reg, ext, appPath)
  {
  }


  /** A failed registry access is reported with its message and writes
      nothing; otherwise registration never fails. */
  lemma RegisterErrors(reg: Registry, extension: string, appPath: string, fault: Option<string>)
    ensures var r := RegisterOpenWith(reg, extension, appPath, fault);
      (r.result.state == Error <==> fault.Some?) &&
      (fault.Some? ==> r.result.error == fault && r.registry == reg)
  {
  }

  /** Registering twice is harmless: right after a successful registration
      the program counts as already associated. */
  lemma RegisterTwice(reg: Registry, extension: string, appPath: string)
    ensures var r := RegisterOpenWith(reg, extension, appPath, None);
      r.result.state == Success ==>
        RegisterOpenWith(r.registry, extension, appPath, None).result.state == AlreadyAssociated
  {
    var r := RegisterOpenWith(reg, extension, appPath, None);
    if r.result.state == Success {
      SuccessAssociates(reg, extension, appPath);
      RegisterAlreadyAssociated(r.registry, extension, appPath);
    }
  }

  /** After a successful registration the registry says the program is
      associated. */
  lemma SuccessAssociates(reg: Registry, extension: string, appPath: string)
    ensures var r := RegisterOpenWith(reg, extension, appPath, None);
      r.result.state == Success ==> IsAlreadyAssociated(r.registry, Dotted(extension), appPath)
  {
    var r := RegisterOpenWith(reg, extension, appPath, None);
    if r.result.state == Success {
      RegisterWrites(reg, extension, appPath);
      EqualsIgnoreCaseEquivalence(Some(OpenCommand(appPath)), Some(OpenCommand(appPath)), None);
    }
  }

  // ----- SetAsDefaultWithHash ------------------------------------------------

  /** 100-nanosecond ticks in a minute. */
  const TicksPerMinute: nat := 600_000_000

  /** The local time stamped into the hash: the current one with seconds and
      fractions dropped. */
  function HashTimestamp(now: nat): (r: nat)
    ensures r <= now < r + TicksPerMinute
    ensures r % TicksPerMinute == 0
  {
    now / TicksPerMinute * TicksPerMinute
  }

  /** Two moments in the same minute give the same timestamp. */
  lemma SameMinute(now: nat, later: nat)
    requires now <= later && later < HashTimestamp(now) + TicksPerMinute
    ensures HashTimestamp(later) == HashTimestamp(now)
  {
    var t := HashTimestamp(now);
    var q := now / TicksPerMinute;
    assert t == q * TicksPerMinute;
    assert later / TicksPerMinute == q;
  }

  const SidMissing: string := "Failed to get user SID"
  const UserChoiceMissing: string := "Failed to create UserChoice key"
  /** Stands for the message of the exception `BitConverter.ToInt32` raises
      when the hash reads past its buffer. */
  const HashReadFailed: string := "Index was out of range."

  /** An exception while the UserChoice key is filled: when creating the key
      or writing the hash (nothing written), or when writing the ProgId (the
      hash already written). */
  datatype WriteFault = NoWriteFault | HashWriteFails(message: string) | ProgIdWriteFails(message: string)

  /** What the environment does during the call: the fault of the
      registration step, whether deleting the old UserChoice key fails (the
      failure is swallowed and the old key stays), whether creating the key
      yields null, and an exception while filling it. */
  datatype Faults = Faults(registration: Option<string>, deleteFails: bool, userChoiceNull: bool, write: WriteFault)

  /** `SetAsDefaultWithHash(extension)`: register, then replace the
      extension's UserChoice key by one holding the hash and our ProgId.
      `now` is the local time in ticks, `fileTime` its conversion to a file
      time, `userSid` the user's SID (null when unavailable). */
  function SetAsDefaultWithHash(reg: Registry, extension: string, appPath: string, userSid: Option<string>,
                                now: nat, fileTime: nat -> FileTime, md5: seq<byte> -> Digest,
                                faults: Faults): (r: Registration)
  {
    var extension := Dotted(extension);
    var progId := ProgIdFor(extension);
    var registered := RegisterOpenWith(reg, extension, appPath, faults.registration);
    if registered.result.state == Error then registered
    else if IsNullOrEmpty(userSid) then Registration(RegistrationResult(Error, Some(SidMissing)), registered.registry)
    else
      match Generate(extension, progId, userSid.value, fileTime(HashTimestamp(now)), md5)
      case None => Registration(RegistrationResult(Error, Some(HashReadFailed)), registered.registry)
      case Some(hash) => WriteUserChoice(registered.registry, extension, hash, faults)
  }

  /** The end of `SetAsDefaultWithHash`: the UserChoice key is deleted and
      created again, then the hash and our ProgId are written to it, in that
      order.  Success leaves exactly these two values, unless the deletion
      failed, which keeps the old key's other values; a failure keeps what was
      written before it. */
  function WriteUserChoice(reg: Registry, extension: string, hash: string, faults: Faults): (r: Registration)
    ensures r.result.state == Success <==> !faults.userChoiceNull && faults.write.NoWriteFault?
    ensures r.result.state != Success ==> r.result.state == Error && r.result.error.Some?
    ensures forall name :: GetString(r.registry, UserChoice(extension), name) ==
              (if r.result.state == Success && name == "ProgId" then Some(ProgIdFor(extension))
               else if name == "Hash" && !faults.userChoiceNull && !faults.write.HashWriteFails? then Some(hash)
               else if faults.deleteFails then GetString(reg, UserChoice(extension), name)
               else None)
    ensures forall key, name :: key != UserChoice(extension) ==> GetString(r.registry, key, name) == GetString(reg, key, name)
  {
    var cleared := if faults.deleteFails then reg else DeleteKey(reg, UserChoice(extension));
    if faults.userChoiceNull then Registration(RegistrationResult(Error, Some(UserChoiceMissing)), cleared)
    else
      match faults.write
      case HashWriteFails(message) => Registration(RegistrationResult(Error, Some(message)), cleared)
      case ProgIdWriteFails(message) =>
        Registration(RegistrationResult(Error, Some(message)), cleared[(UserChoice(extension), "Hash") := Text(hash)])
      case NoWriteFault =>
        Registration(RegistrationResult(Success, None),
                     cleared[(UserChoice(extension), "Hash") := Text(hash)]
                            [(UserChoice(extension), "ProgId") := Text(ProgIdFor(extension))])
  }

  /** Registration never touches a UserChoice key. */
  lemma RegisterKeepsUserChoice(reg: Registry, extension: string, appPath: string, fault: Option<string>, e: string)
    ensures var r := RegisterOpenWith(reg, extension, appPath, fault);
      forall name :: GetString(r.registry, UserChoice(e), name) == GetString(reg, UserChoice(e), name)
  {
    assert !ApplicationEntry(UserChoice(e)) && !Associating(UserChoice(e), Dotted(extension));
  }


  /** `DeleteSubKeyTree(key)`: every value of the key is gone. */
  function DeleteKey(reg: Registry, key: Key): (r: Registry)
    ensures forall k :: k in r <==> k in reg && k.0 != key
    ensures forall k :: k in r ==> r[k] == reg[k]
  {
    map k | k in reg && k.0 != key :: reg[k]
  }

  /** A registration error is passed on unchanged, and a missing SID fails
      before anything is written to the UserChoice key. */
  lemma SetAsDefaultChecks(reg: Registry, extension: string, appPath: string, userSid: Option<string>,
                           now: nat, fileTime: nat -> FileTime, md5: seq<byte> -> Digest, faults: Faults)
    ensures var r := SetAsDefaultWithHash(reg, extension, appPath, userSid, now, fileTime, md5, faults);
      var ext := Dotted(extension);
      var registered := RegisterOpenWith(reg, ext, appPath, faults.registration);
      (registered.result.state == Error ==> r == registered) &&
      (registered.result.state != Error && IsNullOrEmpty(userSid) ==>
        r.result == RegistrationResult(Error, Some(SidMissing)) &&
        forall name :: GetString(r.registry, UserChoice(ext), name) == GetString(reg, UserChoice(ext), name))
  {
    var ext := Dotted(extension);
    assert Dotted(ext) == ext;
    RegisterKeepsUserChoice(reg, ext, appPath, faults.registration, ext);
  }

  /** Success leaves the hash of the current minute and our ProgId under the
      UserChoice key, and no other value unless deleting the old key failed. */
  lemma SetAsDefaultWrites(reg: Registry, extension: string, appPath: string, userSid: Option<string>,
                           now: nat, fileTime: nat -> FileTime, md5: seq<byte> -> Digest, faults: Faults)
    ensures var r := SetAsDefaultWithHash(reg, extension, appPath, userSid, now, fileTime, md5, faults);
      var ext := Dotted(extension);
      r.result.state == Success ==>
        userSid.Some? &&
        var hash := Generate(ext, ProgIdFor(ext), userSid.value, fileTime(HashTimestamp(now)), md5);
        hash.Some? &&
        forall name :: GetString(r.registry, UserChoice(ext), name) ==
                         (if name == "Hash" then hash else if name == "ProgId" then Some(ProgIdFor(ext))
                          else if faults.deleteFails then GetString(reg, UserChoice(ext), name) else None)
  {
    var ext := Dotted(extension);
    assert Dotted(ext) == ext;
    RegisterKeepsUserChoice(reg, ext, appPath, faults.registration, ext);
  }

  /** Setting the default twice within the same minute writes the same hash. */
  lemma SameMinuteSameResult(reg: Registry, extension: string, appPath: string, userSid: Option<string>,
                             now: nat, later: nat, fileTime: nat -> FileTime, md5: seq<byte> -> Digest, faults: Faults)
    requires now <= later < HashTimestamp(now) + TicksPerMinute
    ensures SetAsDefaultWithHash(reg, extension, appPath, userSid, later, fileTime, md5, faults)
         == SetAsDefaultWithHash(reg, extension, appPath, userSid, now, fileTime, md5, faults)
  {
    SameMinute(now, later);
    assert fileTime(HashTimestamp(later)) == fileTime(HashTimestamp(now));
  }

  /** With text of a size .NET can hold, the hash never fails, so success
      depends only on the registration, the SID and the UserChoice key. */
  lemma SetAsDefaultSucceeds(reg: Registry, extension: string, appPath: string, userSid: Option<string>,
                             now: nat, fileTime: nat -> FileTime, md5: seq<byte> -> Digest, faults: Faults)
    requires userSid.Some? ==>
      Length(BaseInfo(Dotted(extension), userSid.value, ProgIdFor(Dotted(extension)), fileTime(HashTimestamp(now)))) <= MaxStringLength
    ensures var r := SetAsDefaultWithHash(reg, extension, appPath, userSid, now, fileTime, md5, faults);
      r.result.state == Success <==>
        faults.registration.None? && !IsNullOrEmpty(userSid) && !faults.userChoiceNull && faults.write.NoWriteFault?
  {
    var ext := Dotted(extension);
    RegisterErrors(reg, ext, appPath, faults.registration);
    if userSid.Some? {
      GenerateShape(ext, ProgIdFor(ext), userSid.value, fileTime(HashTimestamp(now)), md5);
    }
  }
}
