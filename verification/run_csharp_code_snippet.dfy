/**
 * runCsharpCodeSample: replaces every `YourServerUrl` in the C# sample by the
 * fake server's URL and then every `YourApiKey` by its seeded key, stages the
 * result as /root/Program.cs beside a launcher script, runs it in the
 * `seamapi/csharp-sample-runner` image, and shapes the output: stdout is
 * ANSI-stripped and trimmed into one `logged_content` entry, which is also
 * `execution_result` unless stderr is non-empty.
 *
 * The container runner and the ANSI stripper are parameters: nothing is
 * assumed about either.
 */
module CsharpRunner {
  import opened JsString
  import opened Sandbox

  // ---------------------------------------------------------------------------
  // Snippet preparation
  // ---------------------------------------------------------------------------

  const ServerUrlToken: string := "YourServerUrl"
  const ApiKeyToken: string := "YourApiKey"

  /**
   * The program written to /root/Program.cs: two global replaces in a row,
   * first the server URL token, then the API key token. A sample holding
   * neither token is passed through unchanged.
   */
  function PrepareProgram(csharpSample: string, backend: Backend): (program: string)
    ensures !Occurs(ServerUrlToken, csharpSample) && !Occurs(ApiKeyToken, csharpSample) ==> program == csharpSample
  {
    ReplaceAll(ReplaceAll(csharpSample, ServerUrlToken, backend.serverUrl), ApiKeyToken, backend.apiKey)
  }

  /**
   * When neither value holds a `$` (so no replacement pattern applies), each
   * replace is a split on the token followed by a join with the value.
   */
  lemma PrepareIsSplitJoin(csharpSample: string, backend: Backend)
    requires '$' !in backend.serverUrl && '$' !in backend.apiKey
    ensures PrepareProgram(csharpSample, backend)
         == Join(Split(Join(Split(csharpSample, ServerUrlToken), backend.serverUrl), ApiKeyToken), backend.apiKey)
  {
    ReplaceAllIsSplitJoin(csharpSample, ServerUrlToken, backend.serverUrl);
    var withUrl := ReplaceAll(csharpSample, ServerUrlToken, backend.serverUrl);
    ReplaceAllIsSplitJoin(withUrl, ApiKeyToken, backend.apiKey);
  }

  /**
   * The replaces run in sequence, so an API key token inside the server URL is
   * replaced too: a sample that is just the server URL token becomes the URL
   * with every `YourApiKey` in it replaced by the key.
   */
  lemma KeyTokenInsideServerUrlIsReplaced(url: string, key: string)
    requires '$' !in url
    ensures PrepareProgram(ServerUrlToken, Backend(url, key)) == ReplaceAll(url, ApiKeyToken, key)
  {
    ReplaceAllWhole(ServerUrlToken, url);
    ExpandLiteral(url, ServerUrlToken, [], []);
  }

  /**
   * The values are inserted as JavaScript replacement strings, so a `$&` in
   * the key stands for the matched token: the token survives substitution,
   * wrapped in the key's other text.
   */
  lemma DollarPatternInKeyKeepsToken(url: string, a: string, b: string)
    requires '$' !in a && '$' !in b
    ensures PrepareProgram(ApiKeyToken, Backend(url, a + "$&" + b)) == a + ApiKeyToken + b
  {
    assert !Occurs(ServerUrlToken, ApiKeyToken);
    ReplaceAllWhole(ApiKeyToken, a + "$&" + b);
    ExpandMatched(a, b, ApiKeyToken, [], []);
  }

  // ---------------------------------------------------------------------------
  // The sandbox request
  // ---------------------------------------------------------------------------

  /** The launcher script. */
  const Launcher: string := "cd /root\n    dotnet run"

  /** The whitespace the template literal puts before and after the script. */
  const LauncherLead: string := "\n    "
  const LauncherTrail: string := "\n  "

  /** The launcher script as the template literal spells it, before trimming. */
  const RawLauncher: string := LauncherLead + Launcher + LauncherTrail

  /** The template's surrounding text is whitespace and the script itself is not padded. */
  lemma RawLauncherParts()
    ensures AllWhitespace(LauncherLead) && AllWhitespace(LauncherTrail) && Trimmed(Launcher)
  {
  }

  /** The launcher is the template text, trimmed. */
  lemma LauncherIsTrimmedTemplate()
    ensures Trim(RawLauncher) == Launcher
  {
    RawLauncherParts();
    TrimSurrounded(LauncherLead, Launcher, LauncherTrail);
  }

  /**
   * The request for `runInsideContainer`: exactly two staged files, the
   * program and the launcher, and no `pullImage` flag.
   */
  function Request(program: string): (req: SandboxRequest)
    ensures req.command == LauncherPath && req.imageName == "seamapi/csharp-sample-runner"
    ensures req.filesystem.Keys == {"/root/Program.cs", LauncherPath} && |req.filesystem| == 2
    ensures req.filesystem["/root/Program.cs"] == program && req.filesystem[LauncherPath] == Launcher
    ensures req.pullImage == None
  {
    SandboxRequest(
      LauncherPath,
      "seamapi/csharp-sample-runner",
      map["/root/Program.cs" := program, LauncherPath := Launcher],
      None)
  }

  // ---------------------------------------------------------------------------
  // Result shaping
  // ---------------------------------------------------------------------------

  /**
   * `execution_result` (line 36): absent exactly when stderr is non-empty;
   * otherwise the stripped stdout, trimmed.
   */
  function ExecutionResult(cleanStdout: string, stderr: string): (r: Option<string>)
    ensures r == None <==> Truthy(stderr)
    ensures r.Some? ==> Trimmed(r.value) && (r.value == [] <==> AllWhitespace(cleanStdout))
    ensures r.Some? ==> r.value == Trim(cleanStdout)
  {
    if Truthy(stderr) then None else Some(Trim(cleanStdout))
  }

  /** The streams the container produces for the prepared program. */
  function Executed(csharpSample: string, backend: Backend,
                    runInsideContainer: SandboxRequest -> SandboxResult): SandboxResult
  {
    runInsideContainer(Request(PrepareProgram(csharpSample, backend)))
  }

  /**
   * runCsharpCodeSample, given the fake backend, the container runner and the
   * ANSI stripper: `logged_content` starts as the one trimmed stdout entry (no
   * line splitting, no CRLF handling) and gets one `Error: <stderr>` entry
   * pushed when stderr is non-empty (stderr is not ANSI-stripped);
   * `execution_result` is null exactly then, and otherwise is the first entry.
   */
  method RunCsharpCodeSample(csharpSample: string, backend: Backend,
                             runInsideContainer: SandboxRequest -> SandboxResult,
                             stripAnsi: string -> string)
    returns (outcome: ExecutionOutcome)
    ensures var res := Executed(csharpSample, backend, runInsideContainer);
      && |outcome.loggedContent| == (if Truthy(res.stderr) then 2 else 1)
      && outcome.loggedContent[0] == Trim(stripAnsi(res.stdout))
      && (Truthy(res.stderr) ==> outcome.loggedContent[1] == ErrorEntry(res.stderr))
    ensures Trimmed(outcome.loggedContent[0])
    ensures var res := Executed(csharpSample, backend, runInsideContainer);
      outcome.executionResult == None <==> Truthy(res.stderr)
    ensures var res := Executed(csharpSample, backend, runInsideContainer);
      !Truthy(res.stderr) ==> outcome.executionResult == Some(outcome.loggedContent[0])
  {
    var modifiedCsharpSample := PrepareProgram(csharpSample, backend);
    var res := runInsideContainer(Request(modifiedCsharpSample));
    assert res == Executed(csharpSample, backend, runInsideContainer);
    var loggedContent := [Trim(stripAnsi(res.stdout))];
    if Truthy(res.stderr) {
      loggedContent := loggedContent + [ErrorEntry(res.stderr)];
    }
    outcome := ExecutionOutcome(ExecutionResult(stripAnsi(res.stdout), res.stderr), loggedContent);
  }
}
