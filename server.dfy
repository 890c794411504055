/** gemini_mcp/server.py: the two tools the server exposes. Each returns a
    reply string. `web_search` returns every failure as an "Error..." reply;
    `code_review` does so for every failure modelled here, while the
    path-validation OS exceptions, which escape it in the source, are not
    modelled. */
module Server {
  import opened Wrappers
  import opened Host
  import opened Core

  const NoBinaryReply := "Error: " + "The 'gemini' executable was not found in PATH."
  const DefaultSearchTools := "google_web_search"
  const DefaultReviewTools := "codebase_investigator"

  /** What a tool call does: the reply it returns and the launch it
      attempted, if any; the attempt may fail before any process starts. */
  datatype ToolRun = ToolRun(reply: string, attempted: Option<Invocation>)

  /** `web_search(query, model, allowed_tools)`: the command starts as the
      executable and is extended in place, with `-m model` only for a
      non-empty model; the query goes last, as it is. */
  method WebSearch(os: Os, query: string, model: Option<string> := None,
                   allowedTools: string := DefaultSearchTools) returns (r: ToolRun)
    ensures !Truthy(GetGeminiBin(os)) ==> r == ToolRun(NoBinaryReply, None)
    ensures r.attempted.Some? <==> Truthy(GetGeminiBin(os))
    ensures r.attempted.Some? ==>
      var cmd := r.attempted.value.cmd;
      && r.attempted.value.input == None
      && r.reply == ExecuteGeminiCommand(os, cmd)
      && |cmd| == (if Truthy(model) then 6 else 4)
      && cmd[0] == GetGeminiBin(os).value
      && (Truthy(model) ==> cmd[1] == "-m" && cmd[2] == model.value)
      && cmd[|cmd| - 3..] == ["--allowed-tools", allowedTools, query]
  {
    var bin := GetGeminiBin(os);
    if !Truthy(bin) {
      return ToolRun(NoBinaryReply, None);
    }
    var cmd := [bin.value];
    if Truthy(model) {
      cmd := cmd + ["-m", model.value];
    }
    cmd := cmd + ["--allowed-tools", allowedTools, query];
    r := ToolRun(ExecuteGeminiCommand(os, cmd), Some(Invocation(cmd, None)));
  }

  /** Called with its defaults, `web_search` allows only web search and
      passes no model flag. */
  method WebSearchWithDefaults(os: Os, query: string) returns (r: ToolRun)
    ensures r.attempted.Some? <==> Truthy(GetGeminiBin(os))
    ensures r.attempted.Some? ==>
      r.attempted.value.cmd == [GetGeminiBin(os).value, "--allowed-tools", "google_web_search", query]
  {
    r := WebSearch(os, query);
  }

  /** `code_review(file_path, query, allowed_tools)`: executable, then path
      validation, then the read, then the launch with the file on stdin. */
  function CodeReview(os: Os, filePath: string, query: string,
                      allowedTools: string := DefaultReviewTools): (r: ToolRun)
    ensures r.attempted.None? ==> "Error" <= r.reply
  {
    var bin := GetGeminiBin(os);
    if !Truthy(bin) then ToolRun(NoBinaryReply, None)
    else
      var (isValid, validateError, resolved) := ValidateFilePath(os, filePath);
      if !isValid then ToolRun(validateError, None)
      else
        var (isSuccess, readError, content) := ReadFileSafely(os, resolved.value);
        if !isSuccess then ToolRun(readError, None)
        else
          var cmd := [bin.value, "--allowed-tools", allowedTools, "-p", query];
          ToolRun(ExecuteGeminiCommand(os, cmd, content), Some(Invocation(cmd, content)))
  }

  /** The checks run strictly in order and the first one that fails decides
      the reply, unchanged, with no launch attempted. */
  lemma CodeReviewFirstFailureWins(os: Os, filePath: string, query: string, allowedTools: string)
    ensures var r := CodeReview(os, filePath, query, allowedTools);
      var v := ValidateFilePath(os, filePath);
      && (!Truthy(GetGeminiBin(os)) ==> r == ToolRun(NoBinaryReply, None))
      && (Truthy(GetGeminiBin(os)) && !v.0 ==> r == ToolRun(v.1, None))
      && (Truthy(GetGeminiBin(os)) && v.0 && !ReadFileSafely(os, v.2.value).0 ==>
            r == ToolRun(ReadFileSafely(os, v.2.value).1, None))
      && (r.attempted.Some? <==> Truthy(GetGeminiBin(os)) && v.0 && ReadFileSafely(os, v.2.value).0)
  {
  }

  /** No later step runs after a failed one: the reply does not depend on
      what the skipped steps would have seen. */
  lemma CodeReviewSkipsLaterSteps(os: Os, filePath: string, query: string, allowedTools: string,
                                  exists': string -> bool, resolve': string -> Path,
                                  read': Path -> ReadOutcome, run': Invocation -> ProcessOutcome)
    ensures !Truthy(GetGeminiBin(os)) ==>
      CodeReview(os.(pathExists := exists', resolve := resolve', readText := read', run := run'),
                 filePath, query, allowedTools) == CodeReview(os, filePath, query, allowedTools)
    ensures !ValidateFilePath(os, filePath).0 ==>
      CodeReview(os.(readText := read', run := run'), filePath, query, allowedTools)
        == CodeReview(os, filePath, query, allowedTools)
    ensures ValidateFilePath(os, filePath).0 && !ReadFileSafely(os, ValidateFilePath(os, filePath).2.value).0 ==>
      CodeReview(os.(run := run'), filePath, query, allowedTools) == CodeReview(os, filePath, query, allowedTools)
  {
  }

  /** A review whose launch is attempted runs exactly the executable with the allowed tools and
      the query as `-p`; the file content goes only to standard input, and the
      argument list is the same whatever the file holds. */
  lemma CodeReviewContentOnStdin(os: Os, filePath: string, query: string, allowedTools: string,
                                 read': Path -> ReadOutcome)
    requires CodeReview(os, filePath, query, allowedTools).attempted.Some?
    ensures var r := CodeReview(os, filePath, query, allowedTools);
      var resolved := os.resolve(filePath);
      && Within(resolved, os.cwd)
      && os.readText(resolved).Decoded?
      && r.attempted.value == Invocation([GetGeminiBin(os).value, "--allowed-tools", allowedTools, "-p", query],
                                       Some(os.readText(resolved).text))
      && r.reply == ExecuteGeminiCommand(os, r.attempted.value.cmd, r.attempted.value.input)
    ensures read'(os.resolve(filePath)).Decoded? ==>
      CodeReview(os.(readText := read'), filePath, query, allowedTools).attempted.value.cmd
        == CodeReview(os, filePath, query, allowedTools).attempted.value.cmd
  {
  }

  /** Called with its defaults, `code_review` allows only the codebase investigator. */
  lemma CodeReviewDefaultTools(os: Os, filePath: string, query: string)
    requires CodeReview(os, filePath, query).attempted.Some?
    ensures CodeReview(os, filePath, query).attempted.value.cmd[2] == "codebase_investigator"
  {
  }
}
