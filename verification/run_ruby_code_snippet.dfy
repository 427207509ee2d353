/**
 * runRubyCodeSample: prepends a fixed Seam client bootstrap to the Ruby
 * sample, stages it as /root/app.rb beside a launcher script, runs it in the
 * `seamapi/ruby-sample-runner` image without pulling, and shapes the output:
 * stdout is ANSI-stripped, CRLF-normalised, trimmed and split into lines for
 * `logged_content`; `execution_result` is the same text (trimmed, then
 * CRLF-normalised) unless stderr is non-empty.
 *
 * The container runner and the ANSI stripper are parameters: nothing is
 * assumed about either.
 */
module RubyRunner {
  import opened JsString
  import opened Sandbox

  // ---------------------------------------------------------------------------
  // Snippet preparation
  // ---------------------------------------------------------------------------

  /** The key the preamble passes to the client. */
  const HardcodedApiKey: string := "seam_apikey1_token"

  /** The preamble up to the key: the require, a random fake URL and the client constructor. */
  const PreambleHead: string :=
    "\n  require 'seamapi'\n\nrandom_number = rand(1e6).to_i\n"
    + "api_url = \"https://pws#{random_number}#{random_number}.fakeseamconnect.seam.vc\"\n\n"
    + "client = Seam::Client.new(base_uri: api_url, api_key: '"

  /** The client bootstrap; it builds its own random fake URL and hardcodes the seeded key. */
  const Preamble: string := PreambleHead + HardcodedApiKey + "')\n  "

  /**
   * The program written to /root/app.rb: the preamble, then the sample
   * verbatim. The placeholder substitution is disabled in this runner, so the
   * backend's URL and key play no part.
   */
  function PrepareProgram(rubySample: string, backend: Backend): (program: string)
    ensures |program| == |Preamble| + |rubySample|
    ensures program[..|Preamble|] == Preamble
    ensures program[|Preamble|..] == rubySample
  {
    Preamble + rubySample
  }

  /** The prepared program is the same whichever fake backend was started. */
  lemma PrepareIgnoresBackend(rubySample: string, b1: Backend, b2: Backend)
    ensures PrepareProgram(rubySample, b1) == PrepareProgram(rubySample, b2)
  {
  }

  /** The preamble carries the seeded key literally, whatever the backend seeded. */
  lemma PreambleHardcodesKey()
    ensures Occurs(HardcodedApiKey, Preamble)
    ensures forall b: Backend :: Occurs(HardcodedApiKey, PrepareProgram([], b))
  {
    assert Preamble[|PreambleHead|..|PreambleHead| + |HardcodedApiKey|] == HardcodedApiKey;
    assert MatchAt(Preamble, |PreambleHead|, HardcodedApiKey);
    forall b: Backend ensures Occurs(HardcodedApiKey, PrepareProgram([], b)) {
      assert PrepareProgram([], b) == Preamble;
    }
  }

  // ---------------------------------------------------------------------------
  // The sandbox request
  // ---------------------------------------------------------------------------

  /** The launcher script. */
  const Launcher: string := "cd /root\n      ruby app.rb"

  /** The whitespace the template literal puts before and after the script. */
  const LauncherLead: string := "\n      "
  const LauncherTrail: string := "\n    "

  /** The launcher script as the template literal spells it, before trimming. */
  const RawLauncher: string := LauncherLead + Launcher + LauncherTrail

  /** The template's surrounding text is whitespace and the script itself is not padded. */
  lemma RawLauncherParts()
    ensures AllWhitespace(LauncherLead) && AllWhitespace(LauncherTrail) && Trimmed(Launcher)
  {
  }

  /** The launcher is the template text, trimmed. */
  lemma LauncherIsTrimmedTemplate()
    ensures Trim(RawLauncher) == Launcher
  {
    RawLauncherParts();
    TrimSurrounded(LauncherLead, Launcher, LauncherTrail);
  }

  /**
   * The request for `runInsideContainer`: exactly two staged files, the
   * program and the launcher, and the image is not pulled.
   */
  function Request(program: string): (req: SandboxRequest)
    ensures req.command == LauncherPath && req.imageName == "seamapi/ruby-sample-runner"
    ensures req.filesystem.Keys == {"/root/app.rb", LauncherPath} && |req.filesystem| == 2
    ensures req.filesystem["/root/app.rb"] == program && req.filesystem[LauncherPath] == Launcher
    ensures req.pullImage == Some(false)
  {
    SandboxRequest(
      LauncherPath,
      "seamapi/ruby-sample-runner",
      map["/root/app.rb" := program, LauncherPath := Launcher],
      Some(false))
  }

  // ---------------------------------------------------------------------------
  // Line endings: `.replace(/\r\n/g, "\n")`
  // ---------------------------------------------------------------------------

  const CRLF: string := "\r\n"

  function ReplaceCRLF(s: string): string {
    ReplaceAll(s, CRLF, "\n")
  }

  /** The same replacement, as the literal scan the proofs below work on. */
  function CRLFToLF(s: string): string {
    LiteralReplace(s, CRLF, "\n")
  }

  lemma ReplaceCRLFIsLiteral(s: string)
    ensures ReplaceCRLF(s) == CRLFToLF(s)
  {
    ReplaceAllIsLiteral(s, CRLF, "\n");
  }

  /** One step of the scan over a non-empty string. */
  lemma CRLFToLFStep(s: string)
    requires s != []
    ensures |s| >= 2 && s[..2] == CRLF ==> CRLFToLF(s) == "\n" + CRLFToLF(s[2..])
    ensures !(|s| >= 2 && s[..2] == CRLF) ==> CRLFToLF(s) == [s[0]] + CRLFToLF(s[1..])
  {
  }

  /** The scan splits at any boundary that does not cut a CR LF pair. */
  lemma {:induction false} CRLFToLFAppend(t: string, w: string)
    requires !(t != [] && w != [] && t[|t| - 1] == '\r' && w[0] == '\n')
    ensures CRLFToLF(t + w) == CRLFToLF(t) + CRLFToLF(w)
    decreases |t|
  {
    if t == [] {
      assert t + w == w;
    } else if |t| == 1 {
      CRLFToLFAppendOne(t[0], w);
      CRLFToLFStep(t);
      assert t == [t[0]] && t[1..] == [];
    } else if t[..2] == CRLF {
      CRLFToLFAppendPair(t, w);
      CRLFToLFAppend(t[2..], w);
      ConcatAssoc("\n", CRLFToLF(t[2..]), CRLFToLF(w));
    } else {
      CRLFToLFAppendOther(t, w);
      CRLFToLFAppend(t[1..], w);
      ConcatAssoc([t[0]], CRLFToLF(t[1..]), CRLFToLF(w));
    }
  }

  lemma ConcatAssoc(p: string, a: string, b: string)
    ensures p + (a + b) == (p + a) + b
  {
  }

  lemma CRLFToLFAppendPair(t: string, w: string)
    requires |t| >= 2 && t[..2] == CRLF
    ensures CRLFToLF(t + w) == "\n" + CRLFToLF(t[2..] + w) && CRLFToLF(t) == "\n" + CRLFToLF(t[2..])
  {
    CRLFToLFStep(t + w);
    CRLFToLFStep(t);
    assert (t + w)[..2] == t[..2] && (t + w)[2..] == t[2..] + w;
  }

  lemma CRLFToLFAppendOther(t: string, w: string)
    requires |t| >= 2 && t[..2] != CRLF
    ensures CRLFToLF(t + w) == [t[0]] + CRLFToLF(t[1..] + w) && CRLFToLF(t) == [t[0]] + CRLFToLF(t[1..])
  {
    CRLFToLFStep(t + w);
    CRLFToLFStep(t);
    assert (t + w)[..2] == t[..2] && (t + w)[1..] == t[1..] + w;
  }

  lemma CRLFToLFAppendOne(c: char, w: string)
    requires !(w != [] && c == '\r' && w[0] == '\n')
    ensures CRLFToLF([c] + w) == [c] + CRLFToLF(w)
  {
    var s := [c] + w;
    CRLFToLFStep(s);
    assert s[1..] == w;
    assert w != [] ==> s[..2] == [c, w[0]];
  }

  /** A string not starting with CR keeps its first character. */
  lemma CRLFToLFFirst(t: string)
    requires t != [] && t[0] != '\r'
    ensures CRLFToLF(t) != [] && CRLFToLF(t)[0] == t[0]
  {
    CRLFToLFStep(t);
  }

  /** Whitespace stays whitespace: CR LF becomes LF, everything else is copied. */
  lemma {:induction false} CRLFToLFWhitespace(w: string)
    requires AllWhitespace(w)
    ensures AllWhitespace(CRLFToLF(w))
    decreases |w|
  {
    if w != [] {
      CRLFToLFStep(w);
      if |w| >= 2 && w[..2] == CRLF {
        CRLFToLFWhitespace(w[2..]);
      } else {
        CRLFToLFWhitespace(w[1..]);
      }
    }
  }

  /** A string not ending in CR keeps its last character. */
  lemma {:induction false} CRLFToLFLast(t: string)
    requires t != [] && t[|t| - 1] != '\r'
    ensures CRLFToLF(t) != [] && CRLFToLF(t)[|CRLFToLF(t)| - 1] == t[|t| - 1]
    decreases |t|
  {
    CRLFToLFStep(t);
    if |t| >= 2 && t[..2] == CRLF {
      if |t| > 2 {
        CRLFToLFLast(t[2..]);
      }
    } else if |t| > 1 {
      CRLFToLFLast(t[1..]);
    }
  }

  /** Dropping leading whitespace commutes with the replacement. */
  lemma TrimStartCRLFToLF(s: string)
    ensures TrimStart(CRLFToLF(s)) == CRLFToLF(TrimStart(s))
  {
    var t := TrimStart(s);
    var w := s[..|s| - |t|];
    assert s == w + t;
    CRLFToLFAppend(w, t);
    CRLFToLFWhitespace(w);
    if t != [] {
      CRLFToLFFirst(t);
    }
    TrimStartPrepend(CRLFToLF(w), CRLFToLF(t));
  }

  /** Dropping trailing whitespace commutes with the replacement. */
  lemma TrimEndCRLFToLF(s: string)
    ensures TrimEnd(CRLFToLF(s)) == CRLFToLF(TrimEnd(s))
  {
    var t := TrimEnd(s);
    var w := s[|t|..];
    assert s == t + w;
    CRLFToLFAppend(t, w);
    CRLFToLFWhitespace(w);
    if t != [] {
      CRLFToLFLast(t);
    }
    TrimEndAppend(CRLFToLF(t), CRLFToLF(w));
  }

  /**
   * Trimming and CRLF replacement commute, because CR and LF are both
   * whitespace: line 39 replaces then trims, line 50 trims then replaces,
   * and the two texts agree.
   */
  lemma TrimReplaceCRLFCommute(s: string)
    ensures Trim(ReplaceCRLF(s)) == ReplaceCRLF(Trim(s))
  {
    ReplaceCRLFIsLiteral(s);
    ReplaceCRLFIsLiteral(Trim(s));
    TrimStartCRLFToLF(s);
    TrimEndCRLFToLF(TrimStart(s));
  }

  /** Every CR of `s` opens a CRLF pair. */
  ghost predicate CRsPairedWithLF(s: string) {
    forall i :: 0 <= i < |s| && s[i] == '\r' ==> i + 1 < |s| && s[i + 1] == '\n'
  }

  /** When every CR is followed by LF, the replacement removes every CR. */
  lemma {:induction false} CRLFToLFRemovesPairedCR(s: string)
    requires CRsPairedWithLF(s)
    ensures '\r' !in CRLFToLF(s)
    decreases |s|
  {
    if s != [] {
      CRLFToLFStep(s);
      if |s| >= 2 && s[..2] == CRLF {
        assert forall i :: 0 <= i < |s[2..]| ==> s[2..][i] == s[i + 2];
        CRLFToLFRemovesPairedCR(s[2..]);
      } else {
        assert s[0] != '\r';
        assert forall i :: 0 <= i < |s[1..]| ==> s[1..][i] == s[i + 1];
        CRLFToLFRemovesPairedCR(s[1..]);
      }
    }
  }

  /** A CR that is not followed by LF is left in place. */
  lemma LoneCRSurvives(s: string, i: nat)
    requires i < |s| && s[i] == '\r' && !(i + 1 < |s| && s[i + 1] == '\n')
    ensures '\r' in ReplaceCRLF(s)
  {
    ReplaceCRLFIsLiteral(s);
    LoneCRSurvivesScan(s, i);
  }

  /** The scan reaches every lone CR: no CR LF pair can end on it. */
  lemma {:induction false} LoneCRSurvivesScan(s: string, i: nat)
    requires i < |s| && s[i] == '\r' && !(i + 1 < |s| && s[i + 1] == '\n')
    ensures '\r' in CRLFToLF(s)
    decreases |s|
  {
    CRLFToLFStep(s);
    if |s| >= 2 && s[..2] == CRLF {
      assert s[0] == '\r' && s[1] == '\n';
      assert i >= 2;
      LoneCRSurvivesScan(s[2..], i - 2);
    } else if i == 0 {
      assert CRLFToLF(s)[0] == '\r';
    } else {
      LoneCRSurvivesScan(s[1..], i - 1);
    }
  }

  /** The replacement is one pass, so it is not idempotent: CR CR LF becomes CR LF, then LF. */
  lemma ReplaceCRLFNotIdempotent()
    ensures ReplaceCRLF("\r\r\n") == CRLF
    ensures ReplaceCRLF(ReplaceCRLF("\r\r\n")) == "\n"
  {
    ReplaceCRLFIsLiteral("\r\r\n");
    ReplaceCRLFIsLiteral(CRLF);
    var s := "\r\r\n";
    CRLFToLFStep(s);
    assert s[1..] == CRLF;
    CRLFToLFStep(CRLF);
    assert CRLF[2..] == [];
  }

  // ---------------------------------------------------------------------------
  // Output normalisation and result shaping
  // ---------------------------------------------------------------------------

  /**
   * The stdout entries of `logged_content` (line 39), from the ANSI-stripped
   * stdout: at least one line, none containing LF, and joined with LF they
   * give the text `execution_result` reports.
   */
  function StdoutLines(cleanStdout: string): (lines: seq<string>)
    ensures |lines| >= 1
    ensures forall l <- lines :: '\n' !in l
    ensures Join(lines, "\n") == ReplaceCRLF(Trim(cleanStdout))
  {
    var text := Trim(ReplaceCRLF(cleanStdout));
    SplitPiecesAvoidSeparator(text, '\n');
    JoinSplit(text, "\n");
    TrimReplaceCRLFCommute(cleanStdout);
    Split(text, "\n")
  }

  /**
   * `execution_result` (lines 48-50): absent exactly when stderr is non-empty;
   * otherwise a trimmed text, the stdout lines joined back together.
   */
  function ExecutionResult(cleanStdout: string, stderr: string): (r: Option<string>)
    ensures r == None <==> Truthy(stderr)
    ensures r.Some? ==> Trimmed(r.value) && r.value == Join(StdoutLines(cleanStdout), "\n")
  {
    TrimReplaceCRLFCommute(cleanStdout);
    if Truthy(stderr) then None else Some(ReplaceCRLF(Trim(cleanStdout)))
  }

  /** If stdout has only CRLF pairs, no logged line carries a CR. */
  lemma StdoutLinesHaveNoCR(cleanStdout: string)
    requires CRsPairedWithLF(cleanStdout)
    ensures forall l <- StdoutLines(cleanStdout) :: '\r' !in l
  {
    var text := Trim(ReplaceCRLF(cleanStdout));
    ReplaceCRLFIsLiteral(cleanStdout);
    CRLFToLFRemovesPairedCR(cleanStdout);
    TrimAvoids(ReplaceCRLF(cleanStdout), '\r');
    SplitPiecesAvoid(text, "\n", '\r');
  }

  /**
   * Normalising stdout (trim, then replace) a second time can change it again:
   * `x CR CR LF y` normalises to `x CR LF y`, which normalises to `x LF y`.
   */
  lemma NormalisationNotIdempotent(x: char, y: char)
    requires !IsWhitespace(x) && !IsWhitespace(y)
    ensures ReplaceCRLF(Trim([x] + "\r\r\n" + [y])) == [x] + CRLF + [y]
    ensures ReplaceCRLF(Trim([x] + CRLF + [y])) == [x] + "\n" + [y]
  {
    NormaliseBetween(x, "\r\r\n", y);
    NormaliseBetween(x, CRLF, y);
    ReplaceCRLFNotIdempotent();
  }

  /** Normalising a text between two non-whitespace characters replaces only the middle. */
  lemma NormaliseBetween(x: char, m: string, y: char)
    requires !IsWhitespace(x) && !IsWhitespace(y)
    ensures ReplaceCRLF(Trim([x] + m + [y])) == [x] + ReplaceCRLF(m) + [y]
  {
    var s := [x] + m + [y];
    assert s[0] == x && s[|s| - 1] == y;
    TrimOfTrimmed(s);
    ReplaceCRLFIsLiteral(s);
    ReplaceCRLFIsLiteral(m);
    CRLFToLFBetween(x, m, y);
  }

  /** A text between two characters other than CR and LF is replaced on its own. */
  lemma CRLFToLFBetween(x: char, m: string, y: char)
    requires x != '\r' && x != '\n' && y != '\r' && y != '\n'
    ensures CRLFToLF([x] + m + [y]) == [x] + CRLFToLF(m) + [y]
  {
    CRLFToLFAppendOne(x, []);
    CRLFToLFAppendOne(y, []);
    assert [x] + [] == [x] && [y] + [] == [y];
    CRLFToLFAppend([x] + m, [y]);
    CRLFToLFAppend([x], m);
  }

  lemma NoCRNoCRLF(s: string)
    requires '\r' !in s
    ensures ReplaceCRLF(s) == s
  {
    forall k: nat ensures !MatchAt(s, k, CRLF) {
      if k + 2 <= |s| {
        assert s[k..k + 2][0] == s[k];
      }
    }
  }

  /** A single line ending in CR LF is logged as one line, and reported without the line break. */
  lemma OneLineOutput(line: string)
    requires Trimmed(line) && '\r' !in line && '\n' !in line
    ensures StdoutLines(line + CRLF) == [line]
    ensures ExecutionResult(line + CRLF, []) == Some(line)
  {
    var s := line + CRLF;
    assert AllWhitespace(CRLF);
    TrimSurrounded([], line, CRLF);
    assert [] + line + CRLF == s;
    NoCRNoCRLF(line);
    TrimReplaceCRLFCommute(s);
    AbsentCharDoesNotOccur('\n', line);
    SplitWithoutSeparator(line, "\n");
  }

  // ---------------------------------------------------------------------------
  // The runner
  // ---------------------------------------------------------------------------

  /** The streams the container produces for the prepared program. */
  function Executed(rubySample: string, backend: Backend,
                    runInsideContainer: SandboxRequest -> SandboxResult): SandboxResult
  {
    runInsideContainer(Request(PrepareProgram(rubySample, backend)))
  }

  /**
   * Lines 38-52: from the ANSI-stripped stdout and the raw stderr, builds
   * `logged_content` (the stdout lines, then one `Error: <stderr>` entry
   * pushed when stderr is non-empty) and `execution_result` (null exactly
   * then, and otherwise the logged lines joined with LF).
   */
  method ShapeOutcome(cleanStdout: string, stderr: string) returns (outcome: ExecutionOutcome)
    ensures !Truthy(stderr) ==> outcome.loggedContent == StdoutLines(cleanStdout)
    ensures Truthy(stderr) ==> outcome.loggedContent == StdoutLines(cleanStdout) + [ErrorEntry(stderr)]
    ensures outcome.executionResult == ExecutionResult(cleanStdout, stderr)
    ensures outcome.executionResult == None <==> Truthy(stderr)
    ensures !Truthy(stderr) ==> outcome.executionResult == Some(Join(outcome.loggedContent, "\n"))
  {
    var lines := StdoutLines(cleanStdout);
    var loggedContent := lines;
    if Truthy(stderr) {
      loggedContent := loggedContent + [ErrorEntry(stderr)];
    }
    outcome := ExecutionOutcome(ExecutionResult(cleanStdout, stderr), loggedContent);
  }

  /**
   * runRubyCodeSample, given the fake backend, the container runner and the
   * ANSI stripper: the prepared program runs in the container, and the
   * outcome is shaped from its streams; stderr is not ANSI-stripped.
   */
  method RunRubyCodeSample(rubySample: string, backend: Backend,
                           runInsideContainer: SandboxRequest -> SandboxResult,
                           stripAnsi: string -> string)
    returns (outcome: ExecutionOutcome)
    ensures var res := Executed(rubySample, backend, runInsideContainer);
      !Truthy(res.stderr) ==> outcome.loggedContent == StdoutLines(stripAnsi(res.stdout))
    ensures var res := Executed(rubySample, backend, runInsideContainer);
      Truthy(res.stderr) ==> outcome.loggedContent == StdoutLines(stripAnsi(res.stdout)) + [ErrorEntry(res.stderr)]
    ensures var res := Executed(rubySample, backend, runInsideContainer);
      outcome.executionResult == ExecutionResult(stripAnsi(res.stdout), res.stderr)
    ensures var res := Executed(rubySample, backend, runInsideContainer);
      outcome.executionResult == None <==> Truthy(res.stderr)
    ensures var res := Executed(rubySample, backend, runInsideContainer);
      !Truthy(res.stderr) ==> outcome.executionResult == Some(Join(outcome.loggedContent, "\n"))
  {
    var rubyCodeSample := PrepareProgram(rubySample, backend);
    var res := runInsideContainer(Request(rubyCodeSample));
    outcome := ShapeOutcome(stripAnsi(res.stdout), res.stderr);
  }
}
