/** `Extractor.ExtractAsync`: find the 7-Zip command-line tool, run it on an
    archive, turn its output lines into log entries and progress reports, and
    map its exit code to a result.

    The process itself is an input: what the operating system does when the
    tool is started, the lines it prints and the code it exits with. */
module Extractor {
  import opened Wrappers
  import opened Text
  import opened Int32
  import opened Numerals
  import opened Paths

  /** `Extractor.Result`: success, or failure with a message. */
  datatype Result = Result(success: bool, errorMessage: Option<string>)

  const BinariesNotFound: string :=
    "7-Zip binaries not found. Select a valid 7-Zip folder in Settings, or restore default."
  const DllNotFound: string :=
    "7-Zip DLL (7z.dll) not found next to 7z.exe. Select a valid 7-Zip folder in Settings."
  const StartFailed: string := "Failed to start 7-Zip process."

  // ----- locating the tool ---------------------------------------------------

  /** The folder searched for the tool: the configured one unless it is null
      or blank, else the `7zip` folder next to the program. */
  function ToolFolder(baseDirectory: string, sevenZipPath: Option<string>): (r: string)
    ensures |r| > 0
    ensures !IsNullOrWhiteSpace(sevenZipPath) ==> r == sevenZipPath.value
    ensures IsNullOrWhiteSpace(sevenZipPath) ==> r == Combine(baseDirectory, "7zip")
    ensures IsNullOrWhiteSpace(sevenZipPath) && |baseDirectory| > 0 ==>
      FileName(r) == "7zip" && StartsWith(r, baseDirectory)
  {
    if !IsNullOrWhiteSpace(sevenZipPath) then sevenZipPath.value
    else
      BundledFolder(baseDirectory);
      Combine(baseDirectory, "7zip")
  }

  /** The bundled folder is named `7zip` and sits in the program's folder. */
  lemma BundledFolder(baseDirectory: string)
    ensures |baseDirectory| > 0 ==>
      FileName(Combine(baseDirectory, "7zip")) == "7zip" && StartsWith(Combine(baseDirectory, "7zip"), baseDirectory)
  {
    if |baseDirectory| > 0 {
      assert IsPlainName("7zip");
      FileNameOfCombine(baseDirectory, "7zip");
      assert Combine(baseDirectory, "7zip")[..|baseDirectory|] == baseDirectory;
    }
  }

  /** What the search for the tool finds: the executable, or the message of
      the configuration error. */
  datatype Resolution = Found(executable: string) | Missing(message: string)

  lemma ToolNamesArePlain()
    ensures IsPlainName("7z.exe") && IsPlainName("7zG.exe") && IsPlainName("7z.dll")
  {
  }

  /** `7z.exe` if present, else `7zG.exe`, and then `7z.dll` in the directory
      of the chosen executable. */
  function Resolve(fs: FileSystem, folder: string): (r: Resolution)
    requires |folder| > 0
  {
    var console, gui := Combine(folder, "7z.exe"), Combine(folder, "7zG.exe");
    if !FileExists(fs, console) && !FileExists(fs, gui) then Missing(BinariesNotFound)
    else
      var executable := if FileExists(fs, console) then console else gui;
      ToolNamesArePlain();
      SiblingPath(folder, "7z.exe", "7z.dll");
      SiblingPath(folder, "7zG.exe", "7z.dll");
      if !FileExists(fs, Combine(DirectoryName(executable).value, "7z.dll")) then Missing(DllNotFound)
      else Found(executable)
  }

  /** The tool is found exactly when the folder holds `7z.exe` or `7zG.exe`
      and `7z.dll`; the console tool wins over the windowed one, and a
      missing executable is reported before a missing library. */
  lemma ResolveFinds(fs: FileSystem, folder: string)
    requires |folder| > 0
    ensures var console, gui, dll := Combine(folder, "7z.exe"), Combine(folder, "7zG.exe"), Combine(folder, "7z.dll");
      var r := Resolve(fs, folder);
      (r.Found? <==> (FileExists(fs, console) || FileExists(fs, gui)) && FileExists(fs, dll)) &&
      (r.Found? ==> r.executable == (if FileExists(fs, console) then console else gui)) &&
      (r.Missing? ==> r.message == (if FileExists(fs, console) || FileExists(fs, gui) then DllNotFound else BinariesNotFound))
  {
    ToolNamesArePlain();
    SiblingPath(folder, "7z.exe", "7z.dll");
    SiblingPath(folder, "7zG.exe", "7z.dll");
  }

  // ----- the command line ----------------------------------------------------

  /** The arguments given to 7-Zip: extract with full paths into the output
      folder, answer yes to every prompt, progress and messages to stdout. */
  function Arguments(archivePath: string, outputDir: string): string {
    "x \"" + archivePath + "\" -o\"" + outputDir + "\" -y -bsp1 -bso1"
  }

  /** Splitting a command line into arguments: blanks outside quotes separate
      arguments, a quote toggles quoting and is dropped.  These are the rules
      of the C runtime as long as no backslash stands before a quote. */
  function SplitArguments(s: string, quoted: bool, current: Option<string>): seq<string>
    decreases |s|
  {
    if |s| == 0 then (if current.Some? then [current.value] else [])
    else if s[0] == '"' then SplitArguments(s[1..], !quoted, Some(current.GetOr([])))
    else if (s[0] == ' ' || s[0] == '\t') && !quoted then
      (if current.Some? then [current.value] else []) + SplitArguments(s[1..], false, None)
    else SplitArguments(s[1..], quoted, Some(current.GetOr([]) + [s[0]]))
  }

  predicate NoQuote(s: string) {
    forall i :: 0 <= i < |s| ==> s[i] != '"'
  }

  predicate NoBlank(s: string) {
    forall i :: 0 <= i < |s| ==> s[i] != ' ' && s[i] != '\t'
  }

  /** Text without quotes (and, outside quotes, without blanks) joins the
      current argument unchanged. */
  lemma {:induction false} SplitRun(q: string, rest: string, quoted: bool, current: string)
    requires NoQuote(q) && (quoted || NoBlank(q))
    ensures SplitArguments(q + rest, quoted, Some(current)) == SplitArguments(rest, quoted, Some(current + q))
    decreases |q|
  {
    if |q| == 0 {
      assert q + rest == rest && current + q == current;
    } else {
      assert (q + rest)[1..] == q[1..] + rest;
      assert current + [q[0]] + q[1..] == current + q;
      SplitRun(q[1..], rest, quoted, current + [q[0]]);
    }
  }

  /** A word outside quotes starts a new argument. */
  lemma SplitWord(w: string, rest: string)
    requires |w| > 0 && NoQuote(w) && NoBlank(w)
    ensures SplitArguments(w + rest, false, None) == SplitArguments(rest, false, Some(w))
  {
    assert (w + rest)[0] == w[0] && (w + rest)[1..] == w[1..] + rest;
    assert None.GetOr([]) + [w[0]] == [w[0]];
    assert SplitArguments(w + rest, false, None) == SplitArguments(w[1..] + rest, false, Some([w[0]]));
    SplitRun(w[1..], rest, false, [w[0]]);
    assert [w[0]] + w[1..] == w;
  }

  /** A blank outside quotes ends the current argument. */
  lemma SplitBlank(rest: string, current: string)
    ensures SplitArguments(" " + rest, false, Some(current)) == [current] + SplitArguments(rest, false, None)
  {
    assert (" " + rest)[1..] == rest;
  }

  /** A quote toggles quoting and makes sure an argument is open. */
  lemma SplitQuote(rest: string, quoted: bool, current: Option<string>)
    ensures SplitArguments("\"" + rest, quoted, current) == SplitArguments(rest, !quoted, Some(current.GetOr([])))
  {
    assert ("\"" + rest)[1..] == rest;
  }

  /** 7-Zip receives exactly six arguments: the command, the archive, the
      output switch with the folder, and the three fixed switches, provided
      neither path contains a quote or ends in a backslash (a backslash
      before the closing quote would escape it). */
  lemma ArgumentsSplit(archivePath: string, outputDir: string)
    requires NoQuote(archivePath) && NoQuote(outputDir)
    requires |archivePath| == 0 || archivePath[|archivePath| - 1] != '\\'
    requires |outputDir| == 0 || outputDir[|outputDir| - 1] != '\\'
    ensures SplitArguments(Arguments(archivePath, outputDir), false, None)
         == ["x", archivePath, "-o" + outputDir, "-y", "-bsp1", "-bso1"]
  {
    var t3 := "-y" + (" " + ("-bsp1" + (" " + "-bso1")));
    var m1 := "-o" + ("\"" + (outputDir + ("\"" + (" " + t3))));
    var r3 := archivePath + ("\"" + (" " + m1));
    var switches := SplitArguments(t3, false, None);
    assert switches == ["-y", "-bsp1", "-bso1"] by {
      SplitSwitches();
    }
    var fromOutput := SplitArguments(m1, false, None);
    assert fromOutput == ["-o" + outputDir] + switches by {
      SplitOutput(outputDir, t3);
    }
    var fromArchive := SplitArguments(r3, true, Some([]));
    assert fromArchive == [archivePath] + fromOutput by {
      SplitArchive(archivePath, m1);
    }
    ArgumentsCommand(archivePath, outputDir);
  }

  /** The command line starts with the command `x` and a quote. */
  lemma ArgumentsCommand(archivePath: string, outputDir: string)
    ensures SplitArguments(Arguments(archivePath, outputDir), false, None) ==
      ["x"] + SplitArguments(archivePath + ("\"" + (" " + ("-o" + ("\"" + (outputDir + ("\"" + (" " +
        ("-y" + (" " + ("-bsp1" + (" " + "-bso1"))))))))))), true, Some([]))
  {
    var t3 := "-y" + (" " + ("-bsp1" + (" " + "-bso1")));
    var r3 := archivePath + ("\"" + (" " + ("-o" + ("\"" + (outputDir + ("\"" + (" " + t3)))))));
    assert Arguments(archivePath, outputDir) == "x" + (" " + ("\"" + r3)) by {
      assert "\" -y -bsp1 -bso1" == "\"" + (" " + t3);
    }
    SplitCommand(r3);
  }

  lemma SplitCommand(r3: string)
    ensures SplitArguments("x" + (" " + ("\"" + r3)), false, None) == ["x"] + SplitArguments(r3, true, Some([]))
  {
    SplitWord("x", " " + ("\"" + r3));
    SplitBlank("\"" + r3, "x");
    SplitQuote(r3, false, None);
  }

  lemma SplitArchive(archivePath: string, m1: string)
    requires NoQuote(archivePath)
    ensures SplitArguments(archivePath + ("\"" + (" " + m1)), true, Some([]))
         == [archivePath] + SplitArguments(m1, false, None)
  {
    SplitRun(archivePath, "\"" + (" " + m1), true, []);
    assert [] + archivePath == archivePath;
    SplitQuote(" " + m1, true, Some(archivePath));
    SplitBlank(m1, archivePath);
  }

  lemma SplitOutput(outputDir: string, t3: string)
    requires NoQuote(outputDir)
    ensures SplitArguments("-o" + ("\"" + (outputDir + ("\"" + (" " + t3)))), false, None)
         == ["-o" + outputDir] + SplitArguments(t3, false, None)
  {
    var t1 := "\"" + (" " + t3);
    SplitWord("-o", "\"" + (outputDir + t1));
    SplitQuote(outputDir + t1, false, Some("-o"));
    SplitRun(outputDir, t1, true, "-o");
    SplitQuote(" " + t3, true, Some("-o" + outputDir));
    SplitBlank(t3, "-o" + outputDir);
  }

  lemma SplitSwitches()
    ensures SplitArguments("-y" + (" " + ("-bsp1" + (" " + "-bso1"))), false, None) == ["-y", "-bsp1", "-bso1"]
  {
    var t5 := "-bsp1" + (" " + "-bso1");
    SplitWord("-y", " " + t5);
    SplitBlank(t5, "-y");
    SplitWord("-bsp1", " " + "-bso1");
    SplitBlank("-bso1", "-bsp1");
    SplitWord("-bso1", "");
    assert "-bso1" + "" == "-bso1";
  }

  // ----- output lines --------------------------------------------------------

  /** `\b(\d{1,3})%\b` matching at `i` with `k` digits: a word boundary before
      the first digit, the digits, '%', and a word boundary after the '%',
      which (the '%' not being a word character) needs a word character next. */
  predicate MatchesWith(s: string, i: nat, k: nat) {
    1 <= k <= 3 && i + k + 1 < |s| && AllDigits(s[i..i + k]) && s[i + k] == '%'
    && IsWordChar(s[i + k + 1]) && (i == 0 || !IsWordChar(s[i - 1]))
  }

  predicate MatchesAt(s: string, i: nat) {
    MatchesWith(s, i, 1) || MatchesWith(s, i, 2) || MatchesWith(s, i, 3)
  }

  /** At most one digit count matches at a position: the digits must run up
      to the '%'. */
  lemma MatchLengthUnique(s: string, i: nat, k: nat, k': nat)
    requires MatchesWith(s, i, k) && MatchesWith(s, i, k')
    ensures k == k'
  {
  }

  /** The digit count the greedy `\d{1,3}` settles on. */
  function MatchLength(s: string, i: nat): (k: nat)
    requires MatchesAt(s, i)
    ensures MatchesWith(s, i, k)
  {
    if MatchesWith(s, i, 3) then 3 else if MatchesWith(s, i, 2) then 2 else 1
  }

  /** `Regex.Match` scanning start positions from `from` on. */
  function FindMatch(s: string, from: nat): (r: Option<nat>)
    requires from <= |s|
    ensures r.Some? ==> from <= r.value < |s| && MatchesAt(s, r.value)
    ensures r.Some? ==> forall j :: from <= j < r.value ==> !MatchesAt(s, j)
    ensures r.None? ==> forall j :: from <= j < |s| ==> !MatchesAt(s, j)
    decreases |s| - from
  {
    if from == |s| then None
    else if MatchesAt(s, from) then Some(from)
    else FindMatch(s, from + 1)
  }

  /** The number captured by the leftmost match, which `int.TryParse` always
      accepts (at most three digits). */
  function PercentValue(line: string): (r: Option<nat>)
    ensures r.Some? ==> r.value < 1000
  {
    match FindMatch(line, 0)
    case None => None
    case Some(i) =>
      var k := MatchLength(line, i);
      DigitsBound(line[i..i + k]);
      Some(DigitsValue(line[i..i + k]))
  }

  lemma {:induction false} DigitsBound(s: string)
    requires AllDigits(s)
    ensures DigitsValue(s) < Pow10(|s|)
  {
    if |s| > 0 {
      DigitsBound(s[..|s| - 1]);
    }
  }

  function Pow10(n: nat): nat {
    if n == 0 then 1 else 10 * Pow10(n - 1)
  }

  /** A line reports `v` exactly when the leftmost match of the pattern
      captures the digits of `v`; a line without a match reports nothing. */
  lemma PercentValueLeftmost(line: string, v: nat)
    ensures PercentValue(line) == Some(v) <==>
      exists i: nat, k: nat :: MatchesWith(line, i, k) && (forall j :: 0 <= j < i ==> !MatchesAt(line, j))
        && v == DigitsValue(line[i..i + k])
    ensures PercentValue(line).None? <==> forall i :: 0 <= i < |line| ==> !MatchesAt(line, i)
  {
    forall i: nat, k: nat | MatchesWith(line, i, k)
      ensures MatchesAt(line, i) && i < |line|
    {
      assert k == 1 || k == 2 || k == 3;
    }
    match FindMatch(line, 0)
    case None =>
    case Some(i) =>
      var k := MatchLength(line, i);
      assert MatchesWith(line, i, k) && forall j :: 0 <= j < i ==> !MatchesAt(line, j);
      forall i': nat, k': nat | MatchesWith(line, i', k') && (forall j :: 0 <= j < i' ==> !MatchesAt(line, j))
        ensures i' == i && k' == k
      {
        MatchLengthUnique(line, i, k, k');
      }
  }

  /** One line of the tool's output, as `OutputDataReceived` and
      `ErrorDataReceived` deliver it (the closing null is not a line). */
  datatype Line = Stdout(text: string) | Stderr(text: string)

  /** What `ExtractAsync` reports through its two `IProgress` sinks. */
  datatype Report = Logged(text: string) | Progress(percent: int)

  /** The reports of one line: a standard-output line is logged verbatim and
      then reports its percentage, clamped to 0..100, if it has one; an
      error line is logged with the prefix "ERR: " and reports nothing else. */
  function LineReports(line: Line): (r: seq<Report>)
    ensures |r| >= 1 && r[0].Logged?
  {
    match line
    case Stdout(text) =>
      [Logged(text)] + (match PercentValue(text) case Some(p) => [Progress(Clamp(p, 0, 100))] case None => [])
    case Stderr(text) => [Logged("ERR: " + text)]
  }

  function OutputReports(lines: seq<Line>): seq<Report> {
    if |lines| == 0 then [] else LineReports(lines[0]) + OutputReports(lines[1..])
  }

  /** The text a line leaves in the log. */
  function LogText(line: Line): string {
    match line
    case Stdout(text) => text
    case Stderr(text) => "ERR: " + text
  }

  function LoggedTexts(reports: seq<Report>): seq<string> {
    if |reports| == 0 then []
    else (if reports[0].Logged? then [reports[0].text] else []) + LoggedTexts(reports[1..])
  }

  function Percentages(reports: seq<Report>): seq<int> {
    if |reports| == 0 then []
    else (if reports[0].Progress? then [reports[0].percent] else []) + Percentages(reports[1..])
  }

  lemma {:induction false} LoggedTextsAppend(a: seq<Report>, b: seq<Report>)
    ensures LoggedTexts(a + b) == LoggedTexts(a) + LoggedTexts(b)
    ensures Percentages(a + b) == Percentages(a) + Percentages(b)
  {
    if |a| > 0 {
      assert (a + b)[1..] == a[1..] + b;
      LoggedTextsAppend(a[1..], b);
    } else {
      assert a + b == b;
    }
  }

  /** Every line is logged once, in order; error lines carry the prefix. */
  lemma {:induction false} OutputLogged(lines: seq<Line>)
    ensures LoggedTexts(OutputReports(lines)) == seq(|lines|, i requires 0 <= i < |lines| => LogText(lines[i]))
  {
    if |lines| > 0 {
      var head := LineReports(lines[0]);
      LoggedTextsAppend(head, OutputReports(lines[1..]));
      OutputLogged(lines[1..]);
      assert LoggedTexts(head) == [LogText(lines[0])] by {
        assert head[1..] == [] || head[1..] == [head[1]];
      }
    }
  }

  /** The percentage a line reports, if any. */
  function LinePercent(line: Line): Option<int> {
    if line.Stdout? && PercentValue(line.text).Some? then Some(Clamp(PercentValue(line.text).value, 0, 100)) else None
  }

  /** Progress comes only from standard-output lines that match, one report
      per such line, in order, and always within 0..100. */
  lemma {:induction false} OutputProgress(lines: seq<Line>)
    ensures forall p :: p in Percentages(OutputReports(lines)) ==> 0 <= p <= 100
    ensures |Percentages(OutputReports(lines))| <= |lines|
    ensures (forall i :: 0 <= i < |lines| ==> lines[i].Stderr?) ==> Percentages(OutputReports(lines)) == []
  {
    if |lines| > 0 {
      var head := LineReports(lines[0]);
      LoggedTextsAppend(head, OutputReports(lines[1..]));
      OutputProgress(lines[1..]);
      assert Percentages(head) == (if LinePercent(lines[0]).Some? then [LinePercent(lines[0]).value] else []) by {
        assert head[1..] == [] || head[1..] == [head[1]];
      }
    }
  }

  // ----- running the tool ----------------------------------------------------

  /** What `Process.Start()` does: start, return false, or throw. */
  datatype Start = Started | NotStarted | Threw(message: string)

  /** The behaviour of the operating system and the tool during one call:
      whether cancellation was already requested before the start, the start,
      the output lines and the exit code.  A cancellation after the start
      kills the process, whose exit code then decides the outcome. */
  datatype Run = Run(canceledBeforeStart: bool, start: Start, output: seq<Line>, exitCode: i32)

  /** The environment: the program's folder, the current directory (the
      fallback working directory) and the files. */
  datatype Environment = Environment(baseDirectory: string, currentDirectory: string, fs: FileSystem)

  /** A process start: executable, argument string, working directory. */
  datatype Launch = Launch(fileName: string, arguments: string, workingDirectory: string)

  /** The returned `Task` either completes with a result or is canceled
      (`OperationCanceledException`). */
  datatype Outcome = Completed(result: Result) | Canceled

  /** One call: its outcome, the start it attempted, and its reports. */
  datatype Extraction = Extraction(outcome: Outcome, attempted: Option<Launch>, reports: seq<Report>)

  function ExitMessage(code: i32): string {
    "7-Zip exited with code " + IntToString(code) + "."
  }

  /** `ExtractAsync(archivePath, outputDir, progress, log, ct)`. */
  function ExtractAsync(env: Environment, sevenZipPath: Option<string>, archivePath: string, outputDir: string, run: Run): (r: Extraction)
  {
    RunTool(Resolve(env.fs, ToolFolder(env.baseDirectory, sevenZipPath)), env.currentDirectory, archivePath, outputDir, run)
  }

  /** The part of `ExtractAsync` after the search for the tool. */
  function RunTool(resolution: Resolution, currentDirectory: string, archivePath: string, outputDir: string, run: Run): (r: Extraction)
  {
    match resolution
    case Missing(message) => Extraction(Completed(Result(false, Some(message))), None, [])
    case Found(executable) =>
      var launch := Launch(executable, Arguments(archivePath, outputDir),
                           DirectoryName(archivePath).GetOr(currentDirectory));
      if run.canceledBeforeStart then Extraction(Canceled, None, [])
      else
        match run.start
        case Threw(message) => Extraction(Completed(Result(false, Some(message))), Some(launch), [])
        case NotStarted => Extraction(Completed(Result(false, Some(StartFailed))), Some(launch), [])
        case Started =>
          var reports := OutputReports(run.output);
          if run.exitCode == 0 then Extraction(Completed(Result(true, None)), Some(launch), reports + [Progress(100)])
          else Extraction(Completed(Result(false, Some(ExitMessage(run.exitCode)))), Some(launch), reports)
  }

  /** A configuration error returns its message and starts nothing; a
      cancellation before the start starts nothing either and cancels. */
  lemma ConfigurationErrors(resolution: Resolution, currentDirectory: string, archivePath: string, outputDir: string, run: Run)
    ensures var r := RunTool(resolution, currentDirectory, archivePath, outputDir, run);
      (r.attempted.None? <==> resolution.Missing? || run.canceledBeforeStart) &&
      (r.attempted.None? ==> r.reports == []) &&
      (resolution.Missing? ==> r.outcome == Completed(Result(false, Some(resolution.message)))) &&
      (r.outcome.Canceled? <==> resolution.Found? && run.canceledBeforeStart)
  {
  }

  /** The call succeeds exactly when the tool starts and exits with 0, and
      then its last report is 100; a failure always carries a message, and a
      non-zero exit code is quoted in it. */
  lemma RunToolOutcome(resolution: Resolution, currentDirectory: string, archivePath: string, outputDir: string, run: Run)
    ensures var r := RunTool(resolution, currentDirectory, archivePath, outputDir, run);
      var launched := resolution.Found? && !run.canceledBeforeStart;
      (r.outcome == Completed(Result(true, None)) <==> launched && run.start.Started? && run.exitCode == 0) &&
      (r.outcome.Completed? && r.outcome.result.success ==> r.reports[|r.reports| - 1] == Progress(100)) &&
      (r.outcome.Completed? && !r.outcome.result.success ==> r.outcome.result.errorMessage.Some?) &&
      (launched && run.start.Started? && run.exitCode != 0 ==>
        r.outcome == Completed(Result(false, Some(ExitMessage(run.exitCode))))) &&
      (launched && run.start.NotStarted? ==> r.outcome == Completed(Result(false, Some(StartFailed)))) &&
      (launched && run.start.Threw? ==> r.outcome == Completed(Result(false, Some(run.start.message))))
  {
  }

  /** Every progress value reported is within 0..100, and once the tool has
      started every output line is logged exactly once, in order. */
  lemma RunToolReports(resolution: Resolution, currentDirectory: string, archivePath: string, outputDir: string, run: Run)
    ensures var r := RunTool(resolution, currentDirectory, archivePath, outputDir, run);
      (forall p :: p in Percentages(r.reports) ==> 0 <= p <= 100) &&
      (r.attempted.Some? && run.start.Started? ==>
        LoggedTexts(r.reports) == seq(|run.output|, i requires 0 <= i < |run.output| => LogText(run.output[i])))
  {
    var reports := OutputReports(run.output);
    OutputProgress(run.output);
    OutputLogged(run.output);
    LoggedTextsAppend(reports, [Progress(100)]);
  }

  /** A successful call started the tool, and its log is every output line,
      in order. */
  lemma ExtractSucceeds(env: Environment, sevenZipPath: Option<string>, archivePath: string, outputDir: string, run: Run)
    ensures var r := ExtractAsync(env, sevenZipPath, archivePath, outputDir, run);
      r.outcome.Completed? && r.outcome.result.success ==>
        run.start.Started? && run.exitCode == 0 &&
        LoggedTexts(r.reports) == seq(|run.output|, i requires 0 <= i < |run.output| => LogText(run.output[i]))
  {
    var resolution := Resolve(env.fs, ToolFolder(env.baseDirectory, sevenZipPath));
    RunToolOutcome(resolution, env.currentDirectory, archivePath, outputDir, run);
    RunToolReports(resolution, env.currentDirectory, archivePath, outputDir, run);
  }

  /** The tool runs in the archive's folder with the fixed arguments. */
  lemma RunToolLaunch(resolution: Resolution, currentDirectory: string, archivePath: string, outputDir: string, run: Run)
    ensures var r := RunTool(resolution, currentDirectory, archivePath, outputDir, run);
      r.attempted.Some? ==>
        r.attempted.value.fileName == resolution.executable &&
        r.attempted.value.arguments == Arguments(archivePath, outputDir) &&
        r.attempted.value.workingDirectory == DirectoryName(archivePath).GetOr(currentDirectory)
  {
  }

  // ----- examples of the percentage pattern ------------------------------------

  /** The trailing `\b` means a percentage followed by a blank or the end of
      the line reports nothing, while one followed by a letter does; a
      number of four digits never matches. */
  lemma PercentExamples()
    ensures PercentValue("45% 3 files").None?
    ensures PercentValue("45%").None?
    ensures PercentValue("45%done") == Some(45)
    ensures PercentValue("1234%x").None?
  {
    PercentBeforeLetter();
    NoPercentMatch("45% 3 files", 2);
    NoPercentMatch("45%", 2);
    PercentFourDigits();
  }

  /** A line whose only '%' is not followed by a word character reports
      nothing. */
  lemma NoPercentMatch(line: string, at: nat)
    requires forall j :: 0 <= j < |line| && line[j] == '%' ==> j == at
    requires at + 1 >= |line| || !IsWordChar(line[at + 1])
    ensures PercentValue(line).None?
  {
    PercentValueLeftmost(line, 0);
  }

  lemma PercentBeforeLetter()
    ensures PercentValue("45%done") == Some(45)
  {
    var a := "45%done";
    assert MatchesWith(a, 0, 2);
    assert a[0..2] == "45";
    assert DigitsValue("45") == 45 by {
      assert "45"[..1] == "4";
    }
    assert PercentValue(a) == Some(DigitsValue(a[0..2]));
  }

  lemma PercentFourDigits()
    ensures PercentValue("1234%x").None?
  {
    var d := "1234%x";
    assert !MatchesWith(d, 0, 3) by {
      assert d[0 + 3] == '4';
    }
    assert !MatchesWith(d, 1, 3) && !MatchesWith(d, 2, 2) && !MatchesWith(d, 3, 1);
  }

}
