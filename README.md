# gemini-mcp: a Dafny model of the tool wrapper around the `gemini` CLI

The server exposes two tools, `web_search` and `code_review`, which launch the
`gemini` command-line program and hand back what it prints. A separate
function, `perform_research`, does the same for a research query. It rejects
bad queries, sanitises the query, wraps it in a fixed prompt and raises on
failure. All three decide what to launch, and with which arguments, before
any process exists. That decision is what this project models and proves.

Every call into the operating system is a field of `Host.Os`:

- the `GEMINI_BIN` environment value and the `shutil.which("gemini")` result;
- the working directory;
- `Path.exists`, and `Path.resolve` giving a path as its components;
- `read_text` as an outcome: decoded text, an invalid-UTF-8 error, or another error;
- `subprocess.run` as a function from an `Invocation` (the argument list and
  the stdin text) to a `ProcessOutcome`.

Each tool is therefore a function of its arguments and an `Os`. Its result
records the reply and which launch, if any, it attempted; an attempt can fail
before any process starts. "Step X never runs" is proved two ways: no launch
was attempted, and the result stays the same when
the oracle that step would consult is replaced by another.

Modules, one per source file plus shared ones:

- `Wrappers`: `Option` and `Result`.
- `PyStr`: the Python string behaviour the source relies on. This is
  `str.isspace`, `str.strip`, left-to-right `str.replace`, and the decimal
  text of an `int` in an f-string, with its inverse.
- `Host`: paths, process and read outcomes, and the `Os` record.
- `Core`: `gemini_mcp/core.py`.
- `Research`: `gemini_mcp/research.py`. Its exceptions are a `PyError` in a `Result`.
- `Server`: `gemini_mcp/server.py`. `web_search` builds its argument list in
  place, so it is a method that extends a local sequence. `code_review` is a
  function.

In the code, `web_search` neither validates nor sanitises its query: it
passes the raw query as the last argument. It also does not call
`perform_research`. No retry over a list of models appears anywhere in the
code.

## Model

| member | source | states |
|---|---|---|
| `PyStr.IsSpace` | gemini_mcp/research.py:36 | the whitespace test of `str.strip`: the ASCII blanks (space, tab, newline, carriage return, vertical tab, form feed) count, no ASCII letter or digit does; with `StripEmptyIffBlank` it decides when a query is blank |
| `PyStr.Strip` | gemini_mcp/research.py:36 | `query.strip()` is no longer than the query and neither starts nor ends with whitespace; `StripEmptyIffBlank` says when it is empty |
| `PyStr.Replace` | gemini_mcp/research.py:50 | `str.replace` keeps the length when pattern and replacement are equally long and never shortens when the replacement is longer; `ReplaceAbsent` and `Research.EscapeChain` characterise its result |
| `PyStr.IntToDecimal` | gemini_mcp/core.py:45 | the f-string text of an exit code is non-empty and starts with '-' iff the code is negative; `IntDecimalRoundTrip` and `IntToDecimalInjective` show it determines the code |
| `PyStr.StripEmptyIffBlank` | gemini_mcp/research.py:36 | `query.strip()` is empty exactly when every character is Python whitespace |
| `PyStr.StripStart` | gemini_mcp/research.py:36 | the result is a suffix, what it drops is all whitespace, and it does not start with whitespace |
| `PyStr.StripEnd` | gemini_mcp/research.py:36 | the result is a prefix, what it drops is all whitespace, and it does not end with whitespace |
| `PyStr.ReplaceAbsent` | gemini_mcp/research.py:50 | `str.replace` of a pattern that does not occur changes nothing |
| `PyStr.NatToDecimal` | gemini_mcp/core.py:45 | the exit code's decimal text is non-empty, all digits, with no leading zero |
| `PyStr.NatDecimalRoundTrip` | gemini_mcp/core.py:45 | parsing the decimal text of a natural number gives it back |
| `PyStr.IntDecimalRoundTrip` | gemini_mcp/research.py:70 | `int(str(code)) == code` for every exit code, negative ones included |
| `PyStr.IntToDecimalInjective` | gemini_mcp/research.py:70 | different exit codes are written differently |
| `PyStr.IntToDecimalChars` | gemini_mcp/core.py:45 | an exit code is written with only a minus sign and digits |
| `Host.Within` | gemini_mcp/core.py:70-71 | `resolved_path.relative_to(Path.cwd())` succeeds iff the working directory's components are a leading part of the resolved path's components; a path as long as the working directory is within it only when it is that directory |
| `Host.PathText` | gemini_mcp/core.py:97 | a resolved path is written as absolute text starting with '/' |
| `Core.GetGeminiBin` | gemini_mcp/core.py:13-15 | the result is the `GEMINI_BIN` value or the PATH lookup, and it is usable iff either of them is non-empty; `GeminiBinPrecedence` fixes which one wins |
| `Core.GeminiBinPrecedence` | gemini_mcp/core.py:13-15 | a non-empty `GEMINI_BIN` wins and the PATH lookup is then irrelevant; otherwise the PATH lookup decides; the result is usable iff either is non-empty |
| `Core.IsGeminiAvailable` | gemini_mcp/core.py:18-20 | available iff `GEMINI_BIN` is non-empty or the PATH lookup found something |
| `Core.AvailableMeansUsable` | gemini_mcp/core.py:18-20 | the `is not None` test agrees with the tools' truthiness test unless PATH lookup returns "" |
| `Core.ExecuteGeminiCommand` | gemini_mcp/core.py:23-51 | a clean exit returns stdout verbatim; every other outcome returns a reply starting with "Error: " and raises nothing |
| `Core.NonzeroExitReply` | gemini_mcp/core.py:44-45 | a nonzero exit replies "Error: Gemini CLI error (Exit N): " then stderr, or "Unknown error" when stderr is empty |
| `Core.CliErrorText` | gemini_mcp/core.py:45 | the exit-status text starts with "Gemini CLI error (Exit " and ends with the stderr text when that is non-empty; `CliErrorTextIdentifies` shows it determines the exit code |
| `Core.CliErrorTextIdentifies` | gemini_mcp/core.py:45 | the exit-status text determines the exit code, and the stderr text except when it is empty or "Unknown error" |
| `Core.ExitTextSplit` | gemini_mcp/core.py:45 | equal exit-status texts have equal exit codes and equal messages, because the code's decimal digits end at the ')' |
| `Core.FailureReplyIdentifiesKind` | gemini_mcp/core.py:44-51 | equal failure replies come from the same kind of failure: missing executable, permission error, any other exception (`except Exception` reports a ValueError and other errors alike), or a nonzero exit with the same code |
| `Core.ValidateFilePath` | gemini_mcp/core.py:54-79 | valid iff the path exists and resolves under the cwd; the third component is present iff valid and then lies under the cwd; a missing path gives the not-found message, a path outside the cwd the access-denied message |
| `Core.MissingFileNotResolved` | gemini_mcp/core.py:63-65 | a missing file is reported without consulting `resolve` |
| `Core.ReadFileSafely` | gemini_mcp/core.py:82-101 | success iff the file decoded, with its content and an empty message; a decode failure and any other failure give their own "Error..." messages and no content |
| `Research.EmptyQuery` | gemini_mcp/research.py:36 | `not query or not query.strip()` holds exactly when the query is all whitespace, the empty query included |
| `Research.FenceStep` | gemini_mcp/research.py:50 | replacing each triple backtick with three single quotes keeps the length; `FenceStepPointwise` and `FenceStepRemovesFences` constrain it |
| `Research.Sanitize` | gemini_mcp/research.py:50 | the sanitised query is never shorter than the query; `SanitizeGuarantees`, `SanitizePlain` and `SanitizeBareFence` characterise it |
| `Research.EscapeChain` | gemini_mcp/research.py:50 | escaping `$` then backticks with `str.replace` is one pass that puts a backslash before each `$` and backtick |
| `Research.SanitizeIsEscapedFenceStep` | gemini_mcp/research.py:50 | the sanitiser is the fence replacement followed by that escaping |
| `Research.EscapeSpecialsEscapes` | gemini_mcp/research.py:50 | after escaping, every `$` and every backtick comes right after a backslash |
| `Research.UnescapeEscapeSpecials` | gemini_mcp/research.py:50 | dropping the inserted backslashes gives back the text before escaping |
| `Research.EscapeSpecialsPlain` | gemini_mcp/research.py:50 | text without `$` or backticks is not changed by the escaping |
| `Research.FenceStepPointwise` | gemini_mcp/research.py:50 | the fence replacement keeps the length and only turns backticks into single quotes |
| `Research.FenceStepLeadingTicks` | gemini_mcp/research.py:50 | backticks that lead the replaced text were backticks of the input that did not open a fence |
| `Research.FenceStepRemovesFences` | gemini_mcp/research.py:50 | no triple backtick survives the fence replacement |
| `Research.SanitizeGuarantees` | gemini_mcp/research.py:50 | every `$` and backtick of the sanitised query is escaped, no two backticks are adjacent, no fence survives, and unescaping gives the fence-replaced query |
| `Research.SanitizePlain` | gemini_mcp/research.py:50 | a query without `$` or backticks is passed through unchanged |
| `Research.SanitizeBareFence` | gemini_mcp/research.py:50 | a bare fence becomes three single quotes, not three escaped backticks |
| `Research.BuildPrompt` | gemini_mcp/research.py:51-55 | the prompt is exactly as long as the instructions, the "User Query:" header, the sanitised query and the closing fence together, and ends with the closing fence; `PromptFences` characterises its fences |
| `Research.PromptFences` | gemini_mcp/research.py:51-55 | the prompt starts with the fixed instructions, has exactly two fences (after "User Query:" and at the end), and holds the sanitised query between them |
| `Research.BuildCommand` | gemini_mcp/research.py:58-61 | the command starts with the executable and ends with the prompt; it has `-m model` at positions 1-2 and length 8 iff a model is given, else length 6; the flags before the prompt are `-o format --allowed-tools tools` |
| `Research.CheckQuery` | gemini_mcp/research.py:36-40 | "Query cannot be empty" iff the query is empty or all whitespace; "Query too long" iff it is not, but is over 2000 characters; accepted otherwise |
| `Research.PerformResearch` | gemini_mcp/research.py:12-73 | a ValueError with no launch attempted iff the query checks fail, and a ValueError after an attempt iff the run itself raised one (a NUL character in the prompt, or output that does not decode); a launch is attempted iff the query is accepted and a usable executable is found, always with no stdin text (`input` is not passed); a returned result is the stdout of an exit with status 0 |
| `Research.ResearchValidatesFirst` | gemini_mcp/research.py:36-47 | a ValueError raised without a launch attempt is raised iff the query checks fail; a rejected query gives the checks' ValueError whatever the OS holds (even with no executable), and no launch is attempted |
| `Research.ResearchAcceptsMaximalLength` | gemini_mcp/research.py:39-40 | a non-blank query of exactly 2000 characters raises no ValueError from the checks |
| `Research.ResearchNeedsBinary` | gemini_mcp/research.py:42-47 | for an accepted query no launch is attempted iff no usable executable is found, and then FileNotFoundError is raised with the fixed message |
| `Research.ResearchLaunch` | gemini_mcp/research.py:57-73 | the attempted command is the assembled one with the wrapped prompt, with no stdin text passed (`input` is not given, so the child inherits the server's stdin); exit 0 returns stdout; a nonzero exit raises RuntimeError with the exit-status text; exceptions from the run propagate with their class (FileNotFoundError, PermissionError, ValueError, others) |
| `Research.NulQueryReachesRun` | gemini_mcp/research.py:36-67 | a query of one NUL character passes both checks, so with an executable the run is attempted, and a ValueError it raises leaves `perform_research` as a ValueError |
| `Research.ResearchDefaults` | gemini_mcp/research.py:12-17 | with the defaults the command is `[bin, "-o", "text", "--allowed-tools", "google_web_search", prompt]` |
| `Server.WebSearch` | gemini_mcp/server.py:19-44 | without an executable, replies "Error: The 'gemini' executable was not found in PATH." and attempts no launch; otherwise the command is `[bin]`, then `-m model` only for a non-empty model, then `--allowed-tools tools query`; the query is raw, no stdin text is passed (`input=None`, so the child inherits the server's stdin), the reply is the execution result |
| `Server.WebSearchWithDefaults` | gemini_mcp/server.py:21 | the default allowed tools are "google_web_search" with no model flag |
| `Server.CodeReview` | gemini_mcp/server.py:47-78 | whenever no launch is attempted the reply starts with "Error" |
| `Server.CodeReviewFirstFailureWins` | gemini_mcp/server.py:60-73 | executable, then path validation, then read: the first failure's message is the reply, unchanged, with no launch attempted; a launch is attempted iff all three pass |
| `Server.CodeReviewSkipsLaterSteps` | gemini_mcp/server.py:60-73 | after a failed step the reply does not depend on the file system, the read or the process launch that the later steps would use |
| `Server.CodeReviewContentOnStdin` | gemini_mcp/server.py:76-78 | a review whose launch is attempted runs `[bin, "--allowed-tools", tools, "-p", query]` with the file content as stdin only; the argument list does not depend on the file's content |
| `Server.CodeReviewDefaultTools` | gemini_mcp/server.py:49 | the default allowed tools are "codebase_investigator" |

## Left out

- The OS calls (`os.environ`, `shutil.which`, `Path.exists`, `Path.resolve`, `Path.cwd`, `read_text`, `subprocess.run`) are inputs in `Host.Os`, not modelled: their behaviour belongs to the platform.
- UTF-8 decoding of files and of process output is not modelled. A read only reports decoded text or one of two failures.
- The text of arbitrary exceptions (`str(e)`) is an opaque string in the outcome.
- `Path.cwd()` is taken as the components of the working directory as the OS reports it. Symbolic links in that path are not modelled.
- `Host.PathText` covers only the absolute paths `resolve` returns; relative or Windows paths are not modelled.
- `PyStr.IsSpace` lists the characters Python's `str.isspace` accepts. Python strings can also hold lone surrogates, which a Dafny `char` cannot, so such strings are not modelled.
- Core.ValidateFilePath: exceptions raised by `path.exists()` (core.py:64), `path.resolve()` (core.py:68) and `Path.cwd()` (core.py:71) are not modelled; the oracles always answer. In the source the first two are outside any `try` and the third is inside one that catches only `ValueError`, so such an exception escapes `validate_file_path` and `code_review` instead of becoming an "Error..." reply.
- PyStr.Replace: requires a non-empty pattern. Python's `str.replace` with an empty pattern inserts the replacement between characters; the source only replaces the non-empty literals "```", "$" and "`".
- Research.PerformResearch: an exception from the run that is not a FileNotFoundError, PermissionError or ValueError becomes `OtherError` with its `str(e)`; its own class (an `OSError` of another kind, say) is not kept.
- `Research.PerformResearch`: raised exceptions are a `Result`, and the exception chaining (`raise ... from e`) is not modelled.
- The `FastMCP` server object, the `@mcp.tool()` registration, `main` and `mcp.run()` belong to a foreign protocol library and the process lifecycle.
- The server has no retry over a list of models and no `model_info` tool, so neither is modelled.
- There is no concurrency or timeout in the code, and none is modelled.
