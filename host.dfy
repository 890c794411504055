/** The operating system as the server sees it. Every call the source makes
    into the OS (the environment, the PATH lookup, the file system, process
    launch) is a field of `Os`, so a tool's behaviour is a function of it. */
module Host {
  import opened Wrappers

  /** An absolute path, as its components below the root directory. */
  datatype Path = Path(parts: seq<string>)

  /** `str(path)` of an absolute POSIX path: "/" and the components joined by "/". */
  function PathText(p: Path): (r: string)
    ensures r != [] && r[0] == '/'
  {
    "/" + Join(p.parts)
  }

  function Join(parts: seq<string>): string {
    if parts == [] then ""
    else if |parts| == 1 then parts[0]
    else parts[0] + "/" + Join(parts[1..])
  }

  /** `path.relative_to(cwd)` succeeds: the components of `cwd` are a prefix
      of those of `path` (`path` is `cwd` itself or lies below it). */
  predicate Within(path: Path, cwd: Path)
    ensures Within(path, cwd) <==> |cwd.parts| <= |path.parts| && path.parts[..|cwd.parts|] == cwd.parts
    ensures Within(path, cwd) && |path.parts| == |cwd.parts| ==> path == cwd
  {
    cwd.parts <= path.parts
  }

  /** A process launch as the source performs it: the argument list and the
      text written to its standard input, if any. */
  datatype Invocation = Invocation(cmd: seq<string>, input: Option<string>)

  /** What `subprocess.run(..., capture_output=True, text=True)` reports. */
  datatype ProcessOutcome =
    | Exited(code: int, stdout: string, stderr: string)  // the process ran to completion
    | ExecutableMissing(detail: string)                   // FileNotFoundError at launch
    | PermissionDenied(detail: string)                    // PermissionError at launch
    | RaisedValueError(detail: string)                    // ValueError, as `str(e)`: an argument with a NUL
                                                          // character, or output that does not decode
                                                          // (UnicodeDecodeError is a ValueError)
    | LaunchFailed(detail: string)                        // any other exception, as `str(e)`

  /** What `path.read_text(encoding="utf-8")` reports. */
  datatype ReadOutcome =
    | Decoded(text: string)   // the file read and decoded
    | NotUtf8                 // UnicodeDecodeError
    | ReadFailed(detail: string)  // any other exception, as `str(e)`

  datatype Os = Os(
    geminiBinVar: Option<string>,        // os.environ.get("GEMINI_BIN")
    whichGemini: Option<string>,         // shutil.which("gemini")
    cwd: Path,                           // Path.cwd()
    pathExists: string -> bool,             // Path(p).exists()
    resolve: string -> Path,             // Path(p).resolve()
    readText: Path -> ReadOutcome,       // path.read_text(encoding="utf-8")
    run: Invocation -> ProcessOutcome)   // subprocess.run
}
