/** gemini_mcp/core.py: locating the executable, running it, and checking and
    reading the file handed to a code review. Running the executable and
    reading the file catch their exceptions and return them as "Error..."
    values; the OS calls in path validation are outside any `try` in the
    source, and their exceptions are not part of this model. */
module Core {
  import opened Wrappers
  import opened PyStr
  import opened Host

  /** Python truthiness of a `str | None`: neither None nor "". */
  predicate Truthy(s: Option<string>) {
    s.Some? && s.value != ""
  }

  /** `os.environ.get("GEMINI_BIN") or shutil.which("gemini")`. */
  function GetGeminiBin(os: Os): (r: Option<string>)
    ensures r.Some? ==> r == os.geminiBinVar || r == os.whichGemini
    ensures Truthy(r) <==> Truthy(os.geminiBinVar) || Truthy(os.whichGemini)
  {
    if Truthy(os.geminiBinVar) then os.geminiBinVar else os.whichGemini
  }

  /** The override wins whenever it is set and non-empty, and the PATH lookup
      is then never consulted; otherwise the PATH lookup decides alone. */
  lemma GeminiBinPrecedence(os: Os, which: Option<string>)
    ensures Truthy(os.geminiBinVar) ==> GetGeminiBin(os) == GetGeminiBin(os.(whichGemini := which)) == os.geminiBinVar
    ensures !Truthy(os.geminiBinVar) ==> GetGeminiBin(os) == os.whichGemini
    ensures Truthy(GetGeminiBin(os)) <==> Truthy(os.geminiBinVar) || Truthy(os.whichGemini)
  {
  }

  /** `get_gemini_bin() is not None`. */
  function IsGeminiAvailable(os: Os): (r: bool)
    ensures r <==> Truthy(os.geminiBinVar) || os.whichGemini.Some?
  {
    GetGeminiBin(os).Some?
  }

  /** The tools test the binary for truthiness rather than for None; the two
      agree unless the PATH lookup reports an empty path. */
  lemma AvailableMeansUsable(os: Os)
    requires os.whichGemini != Some("")
    ensures IsGeminiAvailable(os) <==> Truthy(GetGeminiBin(os))
  {
  }

  // The fixed replies are written in short pieces so that their first
  // characters are easy to reason about.
  const ExecutableMissingReply := "Error: " + "The 'gemini' executable was not found."
  const PermissionDeniedReply := "Error: " + "Permission" + " denied when trying to execute the 'gemini' command."
  const UnexpectedPrefix := "Error: " + "Unexpected error occurred - "

  /** `f"Gemini CLI error (Exit {code}): {stderr or 'Unknown error'}"`, the text
      both core.py and research.py give a nonzero exit. */
  function CliErrorText(code: int, stderr: string): (r: string)
    ensures "Gemini CLI error (Exit " <= r
    ensures stderr != "" ==> |stderr| < |r| && r[|r| - |stderr|..] == stderr
  {
    "Gemini CLI error (Exit " + IntToDecimal(code) + "): " + (if stderr != "" then stderr else "Unknown error")
  }

  /** The exit-status text identifies the exit code, and the standard error
      text unless it was empty or literally "Unknown error". */
  lemma CliErrorTextIdentifies(c1: int, e1: string, c2: int, e2: string)
    requires CliErrorText(c1, e1) == CliErrorText(c2, e2)
    ensures c1 == c2
    ensures e1 == e2 || (e1 in {"", "Unknown error"} && e2 in {"", "Unknown error"})
  {
    var m1 := if e1 != "" then e1 else "Unknown error";
    var m2 := if e2 != "" then e2 else "Unknown error";
    ExitTextSplit(c1, m1, c2, m2);
  }

  /** The step behind `CliErrorTextIdentifies`: the exit code and the message
      can be read back from the text, since the code's digits stop at ')'. */
  lemma ExitTextSplit(c1: int, m1: string, c2: int, m2: string)
    requires "Gemini CLI error (Exit " + IntToDecimal(c1) + "): " + m1
          == "Gemini CLI error (Exit " + IntToDecimal(c2) + "): " + m2
    ensures c1 == c2 && m1 == m2
  {
    var p := "Gemini CLI error (Exit ";
    var d1, d2 := IntToDecimal(c1), IntToDecimal(c2);
    var x1, x2 := "): " + m1, "): " + m2;
    assert p + d1 + "): " + m1 == p + (d1 + x1);
    assert p + d2 + "): " + m2 == p + (d2 + x2);
    assert d1 + x1 == (p + (d1 + x1))[|p|..] == (p + (d2 + x2))[|p|..] == d2 + x2;
    IntToDecimalChars(c1);
    IntToDecimalChars(c2);
    SplitAtStop(d1, x1, d2, x2, ')');
    IntToDecimalInjective(c1, c2);
    assert m1 == x1[3..] && m2 == x2[3..];
  }

  /** A launch or exit that did not succeed. */
  predicate Failed(o: ProcessOutcome) {
    !(o.Exited? && o.code == 0)
  }

  /** `execute_gemini_command(cmd, input)`: the standard output of a clean exit,
      otherwise an "Error: ..." reply describing the failure. */
  function ExecuteGeminiCommand(os: Os, cmd: seq<string>, input: Option<string> := None): (r: string)
    ensures !Failed(os.run(Invocation(cmd, input))) ==> r == os.run(Invocation(cmd, input)).stdout
    ensures Failed(os.run(Invocation(cmd, input))) ==> "Error: " <= r
  {
    match os.run(Invocation(cmd, input))
    case Exited(code, out, err) => if code == 0 then out else "Error: " + CliErrorText(code, err)
    case ExecutableMissing(_) => ExecutableMissingReply
    case PermissionDenied(_) => PermissionDeniedReply
    case RaisedValueError(detail) => UnexpectedPrefix + detail
    case LaunchFailed(detail) => UnexpectedPrefix + detail
  }

  /** A nonzero exit is reported as "Error: " and its exit-status text. */
  lemma NonzeroExitReply(os: Os, cmd: seq<string>, input: Option<string>)
    requires os.run(Invocation(cmd, input)).Exited? && os.run(Invocation(cmd, input)).code != 0
    ensures var o := os.run(Invocation(cmd, input));
      ExecuteGeminiCommand(os, cmd, input) == "Error: " + CliErrorText(o.code, o.stderr)
  {
  }

  /** Two failed runs with the same reply failed in the same way: a missing
      executable, a permission error, any other exception (which `except
      Exception` reports alike, a ValueError included), or a nonzero exit with
      the same exit code. */
  lemma FailureReplyIdentifiesKind(os1: Os, cmd1: seq<string>, in1: Option<string>,
                                   os2: Os, cmd2: seq<string>, in2: Option<string>)
    requires Failed(os1.run(Invocation(cmd1, in1))) && Failed(os2.run(Invocation(cmd2, in2)))
    requires ExecuteGeminiCommand(os1, cmd1, in1) == ExecuteGeminiCommand(os2, cmd2, in2)
    ensures var o1, o2 := os1.run(Invocation(cmd1, in1)), os2.run(Invocation(cmd2, in2));
      && o1.Exited? == o2.Exited?
      && o1.ExecutableMissing? == o2.ExecutableMissing?
      && o1.PermissionDenied? == o2.PermissionDenied?
      && (o1.Exited? ==> o1.code == o2.code)
  {
    var o1, o2 := os1.run(Invocation(cmd1, in1)), os2.run(Invocation(cmd2, in2));
    var r1, r2 := ExecuteGeminiCommand(os1, cmd1, in1), ExecuteGeminiCommand(os2, cmd2, in2);
    FailureReplyLetter(os1, cmd1, in1);
    FailureReplyLetter(os2, cmd2, in2);
    if o1.Exited? && o2.Exited? {
      assert CliErrorText(o1.code, o1.stderr) == r1[7..] == r2[7..] == CliErrorText(o2.code, o2.stderr);
      CliErrorTextIdentifies(o1.code, o1.stderr, o2.code, o2.stderr);
    }
  }

  lemma FailureReplyLetter(os: Os, cmd: seq<string>, input: Option<string>)
    requires Failed(os.run(Invocation(cmd, input)))
    ensures |ExecuteGeminiCommand(os, cmd, input)| > 7
    ensures ExecuteGeminiCommand(os, cmd, input)[7] == KindLetter(os.run(Invocation(cmd, input)))
  {
  }

  /** The first letter after "Error: " in the reply to each kind of failure. */
  function KindLetter(o: ProcessOutcome): char {
    match o
    case Exited(_, _, _) => 'G'
    case ExecutableMissing(_) => 'T'
    case PermissionDenied(_) => 'P'
    case RaisedValueError(_) => 'U'
    case LaunchFailed(_) => 'U'
  }

  function NotFoundMessage(filePath: string): string {
    "Error: File '" + filePath + "' not found."
  }

  function AccessDeniedMessage(filePath: string): string {
    "Error: Access denied. File path '" + filePath + "' is outside the allowed directory."
  }

  function NotTextMessage(path: Path): string {
    "Error: File '" + PathText(path) + "' is not a text file or contains invalid UTF-8 encoding."
  }

  function ReadErrorMessage(detail: string): string {
    "Error reading file: " + detail
  }

  /** `validate_file_path(file_path)`: `(is_valid, error_message, resolved_path)`. */
  function ValidateFilePath(os: Os, filePath: string): (r: (bool, string, Option<Path>))
    ensures r.0 <==> r.2.Some?
    ensures r.0 <==> os.pathExists(filePath) && Within(os.resolve(filePath), os.cwd)
    ensures r.0 ==> r.1 == "" && r.2 == Some(os.resolve(filePath)) && Within(r.2.value, os.cwd)
    ensures !os.pathExists(filePath) ==> r.1 == NotFoundMessage(filePath)
    ensures os.pathExists(filePath) && !r.0 ==> r.1 == AccessDeniedMessage(filePath)
    ensures !r.0 ==> "Error" <= r.1
  {
    if !os.pathExists(filePath) then (false, NotFoundMessage(filePath), None)
    else
      var resolved := os.resolve(filePath);
      if !Within(resolved, os.cwd) then (false, AccessDeniedMessage(filePath), None)
      else (true, "", Some(resolved))
  }

  /** A missing file is reported without resolving its path. */
  lemma MissingFileNotResolved(os: Os, filePath: string, resolve: string -> Path)
    requires !os.pathExists(filePath)
    ensures ValidateFilePath(os.(resolve := resolve), filePath) == ValidateFilePath(os, filePath)
  {
  }

  /** `read_file_safely(resolved_path)`: `(is_success, error_message, file_content)`. */
  function ReadFileSafely(os: Os, path: Path): (r: (bool, string, Option<string>))
    ensures r.0 <==> r.2.Some?
    ensures r.0 <==> os.readText(path).Decoded?
    ensures r.0 ==> r.1 == "" && r.2.value == os.readText(path).text
    ensures os.readText(path).NotUtf8? ==> r.1 == NotTextMessage(path)
    ensures os.readText(path).ReadFailed? ==> r.1 == ReadErrorMessage(os.readText(path).detail)
    ensures !r.0 ==> "Error" <= r.1
  {
    match os.readText(path)
    case Decoded(text) => (true, "", Some(text))
    case NotUtf8 => (false, NotTextMessage(path), None)
    case ReadFailed(detail) => (false, ReadErrorMessage(detail), None)
  }
}
