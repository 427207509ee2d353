# Code snippet runners — a Dafny model

The code-snippet bot checks documentation examples by running them against a
fake Seam API inside a container. Each supported language has a runner:

- `runRubyCodeSample` prepends a fixed Seam client bootstrap (which builds its
  own random fake URL and hardcodes the key `seam_apikey1_token`) to the Ruby
  sample, stages it as `/root/app.rb` with a launcher `/root/run.sh`, runs it
  in `seamapi/ruby-sample-runner` with `pullImage: false`, then normalises the
  output: stdout is ANSI-stripped, CRLF pairs become LF, the text is trimmed
  and split into lines.
- `runCsharpCodeSample` replaces every `YourServerUrl` in the C# sample with
  the fake server's URL and then every `YourApiKey` with its seeded key,
  stages it as `/root/Program.cs` with `/root/run.sh`, runs it in
  `seamapi/csharp-sample-runner`, and keeps stdout as one ANSI-stripped,
  trimmed entry.

Both return `{ execution_result, logged_content }`. `execution_result` is null
exactly when stderr is non-empty. `logged_content` holds the normalised stdout
and, when stderr is non-empty, one more entry `Error: <stderr>`.

The model has four modules:

- `JsString` (`js_string.dfy`): the JavaScript string operations with their
  ECMAScript meaning. `Trim` removes WhiteSpace and LineTerminator characters,
  CR and LF included. `ReplaceAll` is `replace(/token/g, value)`, with the
  `$$`, `$&`, `` $` `` and `$'` patterns of replacement strings. `Split` is
  `split(sep)`. `Join` is `join(sep)`, used to state properties.
- `Sandbox` (`sandbox.dfy`): the fake backend (URL and key), the request passed
  to `runInsideContainer`, the captured streams and the outcome record.
- `RubyRunner` (`run_ruby_code_snippet.dfy`) and `CsharpRunner`
  (`run_csharp_code_snippet.dfy`): preparation, the request, output shaping and
  the runner method.

The container runner and `stripAnsi` are parameters of the runner methods
(`runInsideContainer: SandboxRequest -> SandboxResult`,
`stripAnsi: string -> string`). Nothing is assumed about them. The fake backend
is a `Backend(serverUrl, apiKey)` parameter. `logged_content` is a local `seq`
that gets one entry appended on the error path, as the source's `push` does.

What the model shows about the code:

- The two Ruby orders agree. Line 39 replaces CRLF and then trims, and line 50
  trims and then replaces. Both give the same text because CR and LF are
  whitespace (`TrimReplaceCRLFCommute`). Joining the logged lines with LF
  therefore gives back `execution_result` whenever stderr is empty.
- Normalisation is not idempotent. The CRLF replace is a single left-to-right
  pass: `"\r\r\n"` becomes `"\r\n"`, and a second pass gives `"\n"`
  (`ReplaceCRLFNotIdempotent`). The same holds for the whole trim-then-replace
  of line 50: `x CR CR LF y` normalises to `x CR LF y`, and that normalises
  again to `x LF y` (`NormalisationNotIdempotent`). Every CR that is not
  followed by LF survives the replace (`LoneCRSurvives`). If every CR of the
  stripped stdout opens a CRLF pair, no logged line contains CR
  (`StdoutLinesHaveNoCR`). The converse fails: a lone CR at either end of
  stdout is trimmed away.
- stderr is not ANSI-stripped. It goes into the `Error:` entry exactly as
  captured. Only stdout passes through `stripAnsi`.
- The C# runner passes no `pullImage` flag. The Ruby runner passes `false`.
- Substitution does not guarantee that no token remains. The values are
  JavaScript replacement strings, so any `$&` in the key re-inserts the
  matched token (`DollarPatternInKeyKeepsToken`). The two replaces run in
  sequence, so every `YourApiKey` inside the server URL is replaced as well
  (`KeyTokenInsideServerUrlIsReplaced`). When neither value contains `$`, each
  replace is split-on-token then join-with-value (`PrepareIsSplitJoin`).

## Model

| member | source | states |
|---|---|---|
| JsString.IsWhitespace | code-snippet-bot/src/run-code-snippet/run-csharp-code-snippet.ts:28 | the characters `trim()` removes: the WhiteSpace and LineTerminator code points of ECMAScript |
| JsString.WhitespaceIsEcmaScript | code-snippet-bot/src/run-code-snippet/run-csharp-code-snippet.ts:28 | `IsWhitespace` holds exactly for the WhiteSpace code points (section 12.2 of ECMA-262) and the LineTerminator code points (section 12.3) |
| JsString.TrimStart | code-snippet-bot/src/run-code-snippet/run-ruby-code-snippet.ts:39 | the result is the suffix left after a run of leading whitespace, and it does not start with whitespace |
| JsString.TrimEnd | code-snippet-bot/src/run-code-snippet/run-ruby-code-snippet.ts:39 | the result is the prefix left before a run of trailing whitespace, and it does not end with whitespace |
| JsString.Trim | code-snippet-bot/src/run-code-snippet/run-csharp-code-snippet.ts:28 | `trim()` leaves no whitespace at either end and gives the empty string exactly when the input is all whitespace |
| JsString.TrimIsInfix | code-snippet-bot/src/run-code-snippet/run-csharp-code-snippet.ts:28 | the input is whitespace, then `Trim` of it at some offset, then whitespace |
| JsString.TrimOfTrimmed | code-snippet-bot/src/run-code-snippet/run-csharp-code-snippet.ts:28 | a text with no whitespace at either end is left unchanged by `trim()` |
| JsString.TrimIdempotent | code-snippet-bot/src/run-code-snippet/run-csharp-code-snippet.ts:28 | trimming twice gives the same text as trimming once |
| JsString.TrimAvoids | code-snippet-bot/src/run-code-snippet/run-ruby-code-snippet.ts:39 | trimming never introduces a character that was absent from the input |
| JsString.TrimEndAppend | code-snippet-bot/src/run-code-snippet/run-ruby-code-snippet.ts:39 | whitespace appended after a text that does not end in whitespace is exactly what the end trim removes |
| JsString.TrimStartPrepend | code-snippet-bot/src/run-code-snippet/run-ruby-code-snippet.ts:39 | whitespace put before a text that does not start with whitespace is exactly what the start trim removes |
| JsString.TrimSurrounded | code-snippet-bot/src/run-code-snippet/run-ruby-code-snippet.ts:23-26 | a trimmed text between two runs of whitespace is what `trim()` returns |
| JsString.Expand | code-snippet-bot/src/run-code-snippet/run-csharp-code-snippet.ts:11-12 | the text inserted for one match: `$$` is a dollar sign, `$&` the match, `` $` `` the text before it, `$'` the text after it, any other character literal |
| JsString.ExpandMatched | code-snippet-bot/src/run-code-snippet/run-csharp-code-snippet.ts:12 | a replacement string `a$&b` with `$`-free `a` and `b` inserts `a`, the matched text, then `b` |
| JsString.ExpandLiteral | code-snippet-bot/src/run-code-snippet/run-csharp-code-snippet.ts:11-12 | a replacement string without `$` is inserted verbatim for each match |
| JsString.ReplaceFrom | code-snippet-bot/src/run-code-snippet/run-csharp-code-snippet.ts:11-12 | the global replace scans left to right, expands the replacement at each match and resumes after it, and copies every other character |
| JsString.ReplaceFromNoMatch | code-snippet-bot/src/run-code-snippet/run-csharp-code-snippet.ts:11-12 | with no match at or after the scan position, the global replace copies the rest of the text |
| JsString.ReplaceAll | code-snippet-bot/src/run-code-snippet/run-csharp-code-snippet.ts:11-12 | a text that does not contain the token passes through the global replace unchanged |
| JsString.ReplaceAllWhole | code-snippet-bot/src/run-code-snippet/run-csharp-code-snippet.ts:11-12 | a text that is exactly the token becomes the replacement string expanded with nothing before or after the match |
| JsString.LiteralReplaceSkip | code-snippet-bot/src/run-code-snippet/run-csharp-code-snippet.ts:11-12 | text that lacks the token's first character is copied as it is and the scan goes on after it |
| JsString.LiteralReplacePattern | code-snippet-bot/src/run-code-snippet/run-csharp-code-snippet.ts:11-12 | the token on its own becomes the replacement value |
| JsString.ReplaceFromIsLiteral | code-snippet-bot/src/run-code-snippet/run-csharp-code-snippet.ts:11-12 | with a `$`-free value, the position-aware global replace equals the literal left-to-right replacement |
| JsString.ReplaceAllIsLiteral | code-snippet-bot/src/run-code-snippet/run-csharp-code-snippet.ts:11-12 | with a `$`-free value, `replace(/token/g, value)` is the literal non-overlapping left-to-right replacement |
| JsString.Split | code-snippet-bot/src/run-code-snippet/run-ruby-code-snippet.ts:39 | `split(sep)` always yields at least one piece (the empty string gives one empty piece) |
| JsString.SplitWithoutSeparator | code-snippet-bot/src/run-code-snippet/run-ruby-code-snippet.ts:39 | a text in which the separator does not occur splits into itself alone |
| JsString.LiteralReplaceIsSplitJoin | code-snippet-bot/src/run-code-snippet/run-csharp-code-snippet.ts:11-12 | replacing every token with a value equals splitting on the token and joining with the value |
| JsString.ReplaceAllIsSplitJoin | code-snippet-bot/src/run-code-snippet/run-csharp-code-snippet.ts:11-12 | with a `$`-free value, the global replace equals split-on-token then join-with-value |
| JsString.LiteralReplaceSelf | code-snippet-bot/src/run-code-snippet/run-ruby-code-snippet.ts:39 | replacing a token with itself leaves any text unchanged |
| JsString.JoinSplit | code-snippet-bot/src/run-code-snippet/run-ruby-code-snippet.ts:39 | joining the pieces of `split(sep)` with `sep` gives back the text |
| JsString.SplitPiecesAvoidSeparator | code-snippet-bot/src/run-code-snippet/run-ruby-code-snippet.ts:39 | no piece of a split on a one-character separator contains that character |
| JsString.SplitPiecesAvoid | code-snippet-bot/src/run-code-snippet/run-ruby-code-snippet.ts:39 | a character absent from the text is absent from every piece of its split |
| RubyRunner.PrepareProgram | code-snippet-bot/src/run-code-snippet/run-ruby-code-snippet.ts:10-21 | the program is the fixed preamble followed by the sample verbatim; the sample body is not rewritten |
| RubyRunner.PrepareIgnoresBackend | code-snippet-bot/src/run-code-snippet/run-ruby-code-snippet.ts:10-21 | the prepared program is the same whatever server URL and key the fake backend provides |
| RubyRunner.PreambleHardcodesKey | code-snippet-bot/src/run-code-snippet/run-ruby-code-snippet.ts:13-16 | the preamble contains the literal key `seam_apikey1_token` whatever backend is used |
| RubyRunner.LauncherIsTrimmedTemplate | code-snippet-bot/src/run-code-snippet/run-ruby-code-snippet.ts:23-26 | the staged launcher, `cd /root`, a line break, six spaces and `ruby app.rb`, is the template text after `trim()` |
| RubyRunner.Request | code-snippet-bot/src/run-code-snippet/run-ruby-code-snippet.ts:28-36 | the request runs `/root/run.sh` in `seamapi/ruby-sample-runner`, stages exactly `/root/app.rb` (the program) and `/root/run.sh` (the launcher), and sets `pullImage` to false |
| RubyRunner.ReplaceCRLF | code-snippet-bot/src/run-code-snippet/run-ruby-code-snippet.ts:39 | `replace(/\r\n/g, "\n")`, the global replace of CRLF by LF, used on lines 39 and 50 |
| RubyRunner.ReplaceCRLFIsLiteral | code-snippet-bot/src/run-code-snippet/run-ruby-code-snippet.ts:39 | `replace(/\r\n/g, "\n")` replaces each left-to-right CRLF pair with LF and copies every other character |
| RubyRunner.CRLFToLFStep | code-snippet-bot/src/run-code-snippet/run-ruby-code-snippet.ts:39 | one scan step: a leading CRLF becomes LF, any other leading character is copied |
| RubyRunner.CRLFToLFAppend | code-snippet-bot/src/run-code-snippet/run-ruby-code-snippet.ts:39 | the CRLF replacement distributes over a concatenation that does not cut a CRLF pair |
| RubyRunner.CRLFToLFFirst | code-snippet-bot/src/run-code-snippet/run-ruby-code-snippet.ts:39 | a text not starting with CR keeps its first character |
| RubyRunner.CRLFToLFWhitespace | code-snippet-bot/src/run-code-snippet/run-ruby-code-snippet.ts:39 | the CRLF replacement maps whitespace to whitespace |
| RubyRunner.CRLFToLFLast | code-snippet-bot/src/run-code-snippet/run-ruby-code-snippet.ts:39 | a text not ending in CR keeps its last character |
| RubyRunner.TrimStartCRLFToLF | code-snippet-bot/src/run-code-snippet/run-ruby-code-snippet.ts:39 | removing leading whitespace commutes with the CRLF replacement |
| RubyRunner.TrimEndCRLFToLF | code-snippet-bot/src/run-code-snippet/run-ruby-code-snippet.ts:39 | removing trailing whitespace commutes with the CRLF replacement |
| RubyRunner.TrimReplaceCRLFCommute | code-snippet-bot/src/run-code-snippet/run-ruby-code-snippet.ts:38-50 | replace-then-trim (line 39) equals trim-then-replace (line 50), for every stdout |
| RubyRunner.CRLFToLFRemovesPairedCR | code-snippet-bot/src/run-code-snippet/run-ruby-code-snippet.ts:39 | when every CR is followed by LF, no CR remains after the replacement |
| RubyRunner.LoneCRSurvives | code-snippet-bot/src/run-code-snippet/run-ruby-code-snippet.ts:39 | for every text, a CR at any position that is not followed by LF is still present after the replacement |
| RubyRunner.ReplaceCRLFNotIdempotent | code-snippet-bot/src/run-code-snippet/run-ruby-code-snippet.ts:39 | the replacement is a single pass: CR CR LF becomes CR LF, and only a second pass gives LF |
| RubyRunner.NormalisationNotIdempotent | code-snippet-bot/src/run-code-snippet/run-ruby-code-snippet.ts:50 | for any two non-whitespace characters `x` and `y`, trim-then-replace turns `x CR CR LF y` into `x CR LF y`, and a second pass turns that into `x LF y` |
| RubyRunner.NormaliseBetween | code-snippet-bot/src/run-code-snippet/run-ruby-code-snippet.ts:50 | trim-then-replace of a text between two non-whitespace characters replaces CRLF in the middle and keeps both ends |
| RubyRunner.NoCRNoCRLF | code-snippet-bot/src/run-code-snippet/run-ruby-code-snippet.ts:39 | a text without CR is unchanged by the CRLF replacement |
| RubyRunner.StdoutLines | code-snippet-bot/src/run-code-snippet/run-ruby-code-snippet.ts:38-40 | the stdout entries of `logged_content` are at least one line, none contains LF, and joined with LF they are the trimmed, CRLF-replaced stdout |
| RubyRunner.ExecutionResult | code-snippet-bot/src/run-code-snippet/run-ruby-code-snippet.ts:47-50 | `execution_result` is null exactly when stderr is non-empty; otherwise it has no whitespace at either end and equals the stdout lines joined with LF |
| RubyRunner.StdoutLinesHaveNoCR | code-snippet-bot/src/run-code-snippet/run-ruby-code-snippet.ts:38-40 | if every CR of the stripped stdout opens a CRLF pair, no logged line contains CR |
| RubyRunner.OneLineOutput | code-snippet-bot/src/run-code-snippet/run-ruby-code-snippet.ts:38-50 | one trimmed line followed by CRLF is logged as that line alone and reported without the line break |
| Sandbox.Truthy | code-snippet-bot/src/run-code-snippet/run-ruby-code-snippet.ts:42-49 | the `if (stderr)` and `stderr ?` tests: a string is truthy exactly when it is not empty |
| Sandbox.ErrorEntry | code-snippet-bot/src/run-code-snippet/run-ruby-code-snippet.ts:44 | the pushed entry is `Error: ` followed by the raw stderr |
| RubyRunner.ShapeOutcome | code-snippet-bot/src/run-code-snippet/run-ruby-code-snippet.ts:38-52 | `logged_content` is exactly the stdout lines when stderr is empty, and exactly those lines followed by one `Error: <stderr>` entry otherwise; `execution_result` is null exactly when stderr is non-empty and otherwise is `logged_content` joined with LF |
| RubyRunner.RunRubyCodeSample | code-snippet-bot/src/run-code-snippet/run-ruby-code-snippet.ts:5-53 | the prepared program is what runs; `logged_content` is exactly the lines of the ANSI-stripped stdout, followed by one `Error: <stderr>` entry carrying the raw stderr when it is non-empty; `execution_result` is null exactly when stderr is non-empty and otherwise equals `logged_content` joined with LF |
| CsharpRunner.PrepareProgram | code-snippet-bot/src/run-code-snippet/run-csharp-code-snippet.ts:10-12 | a sample containing neither `YourServerUrl` nor `YourApiKey` is passed through unchanged |
| CsharpRunner.PrepareIsSplitJoin | code-snippet-bot/src/run-code-snippet/run-csharp-code-snippet.ts:10-12 | with `$`-free values, the program is the sample split on `YourServerUrl` and joined with the URL, then split on `YourApiKey` and joined with the key |
| CsharpRunner.KeyTokenInsideServerUrlIsReplaced | code-snippet-bot/src/run-code-snippet/run-csharp-code-snippet.ts:11-12 | because the replaces run in sequence, the sample `YourServerUrl` becomes any `$`-free server URL with every `YourApiKey` in it replaced by the key |
| CsharpRunner.DollarPatternInKeyKeepsToken | code-snippet-bot/src/run-code-snippet/run-csharp-code-snippet.ts:12 | for any server URL and any key `a$&b` with `$`-free `a` and `b`, the sample `YourApiKey` becomes `a`, the token itself, then `b`: the token survives |
| CsharpRunner.LauncherIsTrimmedTemplate | code-snippet-bot/src/run-code-snippet/run-csharp-code-snippet.ts:14-17 | the staged launcher, `cd /root`, a line break, four spaces and `dotnet run`, is the template text after `trim()` |
| CsharpRunner.Request | code-snippet-bot/src/run-code-snippet/run-csharp-code-snippet.ts:19-26 | the request runs `/root/run.sh` in `seamapi/csharp-sample-runner`, stages exactly `/root/Program.cs` (the program) and `/root/run.sh` (the launcher), and passes no `pullImage` |
| CsharpRunner.ExecutionResult | code-snippet-bot/src/run-code-snippet/run-csharp-code-snippet.ts:35-37 | `execution_result` is null exactly when stderr is non-empty; otherwise it is the stripped stdout trimmed, so it has no whitespace at either end and is empty exactly when stdout was all whitespace |
| CsharpRunner.RunCsharpCodeSample | code-snippet-bot/src/run-code-snippet/run-csharp-code-snippet.ts:5-39 | `logged_content` is one trimmed stdout entry (no line splitting, no CRLF handling), plus `Error: <stderr>` as the second and last entry when stderr is non-empty; `execution_result` is null exactly then and otherwise equals the first entry |

## Left out

- Provisioning the fake Seam API (`Fake.createFake`, `seed`, `startServer`) is asynchronous server start-up. The URL and key it yields are the `Backend` parameter.
- `runInsideContainer` runs Docker. It is a function parameter from the request to the captured streams. Its own failures (a thrown error) are not modelled.
- `stripAnsi` comes from a third-party package. It is an uninterpreted parameter, so nothing is claimed about escape-sequence removal.
- The `console.error` calls on the error path write to the operator log. They have no effect on the returned outcome.
- Async sequencing is not modelled. The Ruby preamble's `rand` runs inside Ruby, so it is only text here.
- `$1`–`$99` and `$<name>` in replacement strings are kept as literal text. The regular expressions have no capture groups, so this is what ECMAScript specifies.
- Characters are Unicode scalar values rather than UTF-16 code units. The tokens and the whitespace set are all in the Basic Multilingual Plane.
