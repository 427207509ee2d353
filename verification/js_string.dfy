/**
 * The JavaScript string operations the snippet runners rely on, with the
 * semantics ECMAScript gives them:
 *   - String.prototype.trim          (Trim, built from TrimStart and TrimEnd)
 *   - String.prototype.replace with a global regular expression whose source
 *     is a plain literal token      (ReplaceAll, including the `$` patterns of
 *                                    the replacement string)
 *   - String.prototype.split with a non-empty string separator (Split)
 *   - Array.prototype.join          (Join, used to state properties)
 * Strings are sequences of characters; Dafny's `char` is a Unicode scalar
 * value where JavaScript uses UTF-16 code units, which makes no difference to
 * the tokens and whitespace involved here (all in the Basic Multilingual Plane).
 */
module JsString {

  /** A character that `trim` removes: an ECMAScript WhiteSpace or LineTerminator. */
  predicate IsWhitespace(c: char) {
    c == '\t' || c == '\n' || c == '\U{B}' || c == '\U{C}' || c == '\r' || c == ' '
    || c == '\U{A0}' || c == '\U{1680}' || ('\U{2000}' <= c <= '\U{200A}')
    || c == '\U{2028}' || c == '\U{2029}' || c == '\U{202F}' || c == '\U{205F}'
    || c == '\U{3000}' || c == '\U{FEFF}'
  }

  /** The WhiteSpace code points of ECMAScript (section 12.2 of ECMA-262): TAB, VT, FF, ZWNBSP and the Space_Separator category. */
  const WhiteSpaceCodePoints: set<char> := {
    '\t', '\U{B}', '\U{C}', '\U{FEFF}', ' ', '\U{A0}', '\U{1680}',
    '\U{2000}', '\U{2001}', '\U{2002}', '\U{2003}', '\U{2004}', '\U{2005}',
    '\U{2006}', '\U{2007}', '\U{2008}', '\U{2009}', '\U{200A}',
    '\U{202F}', '\U{205F}', '\U{3000}'}

  /** The LineTerminator code points of ECMAScript (section 12.3 of ECMA-262): LF, CR, LS and PS. */
  const LineTerminatorCodePoints: set<char> := {'\n', '\r', '\U{2028}', '\U{2029}'}

  /** `trim()` strips exactly the WhiteSpace and LineTerminator code points. */
  lemma WhitespaceIsEcmaScript(c: char)
    ensures IsWhitespace(c) <==> c in WhiteSpaceCodePoints + LineTerminatorCodePoints
  {
  }

  ghost predicate AllWhitespace(s: string) {
    forall i :: 0 <= i < |s| ==> IsWhitespace(s[i])
  }

  lemma AllWhitespaceAppend(a: string, b: string)
    requires AllWhitespace(a) && AllWhitespace(b)
    ensures AllWhitespace(a + b)
  {
    forall i | 0 <= i < |a + b| ensures IsWhitespace((a + b)[i]) {
      if i >= |a| {
        assert (a + b)[i] == b[i - |a|];
      }
    }
  }

  /** Neither the first nor the last character is whitespace. */
  predicate Trimmed(s: string) {
    s == [] || (!IsWhitespace(s[0]) && !IsWhitespace(s[|s| - 1]))
  }

  /** `pat` occurs in `s` starting at index `k`. */
  predicate MatchAt(s: string, k: nat, pat: string) {
    k + |pat| <= |s| && s[k..k + |pat|] == pat
  }

  /** `pat` occurs somewhere in `s`. */
  ghost predicate Occurs(pat: string, s: string) {
    exists k: nat :: MatchAt(s, k, pat)
  }

  // ---------------------------------------------------------------------------
  // trim
  // ---------------------------------------------------------------------------

  /** Drops the leading whitespace: the result is the longest suffix not starting with whitespace. */
  function TrimStart(s: string): (r: string)
    ensures |r| <= |s| && r == s[|s| - |r|..]
    ensures AllWhitespace(s[..|s| - |r|])
    ensures r == [] || !IsWhitespace(r[0])
  {
    if s != [] && IsWhitespace(s[0]) then
      var t := s[1..];
      var r := TrimStart(t);
      var w := t[..|t| - |r|];
      assert s[..|s| - |r|] == [s[0]] + w;
      assert r == s[|s| - |r|..];
      assert AllWhitespace([s[0]]);
      AllWhitespaceAppend([s[0]], w);
      r
    else s
  }

  /** Drops the trailing whitespace: the result is the longest prefix not ending in whitespace. */
  function TrimEnd(s: string): (r: string)
    ensures |r| <= |s| && r == s[..|r|]
    ensures AllWhitespace(s[|r|..])
    ensures r == [] || !IsWhitespace(r[|r| - 1])
  {
    if s != [] && IsWhitespace(s[|s| - 1]) then
      var r := TrimEnd(s[..|s| - 1]);
      assert s[|r|..] == s[..|s| - 1][|r|..] + [s[|s| - 1]];
      AllWhitespaceAppend(s[..|s| - 1][|r|..], [s[|s| - 1]]);
      r
    else s
  }

  /** String.prototype.trim: no whitespace at either end; empty exactly when `s` is all whitespace. */
  function Trim(s: string): (r: string)
    ensures Trimmed(r) && |r| <= |s|
    ensures r == [] <==> AllWhitespace(s)
  {
    var t := TrimStart(s);
    assert t == [] ==> s[..|s| - |t|] == s;
    TrimEnd(t)
  }

  /** `s` is whitespace, then `Trim(s)`, then whitespace. */
  lemma TrimIsInfix(s: string) returns (lo: nat, r: string)
    ensures r == Trim(s)
    ensures lo + |r| <= |s| && s[lo..lo + |r|] == r
    ensures AllWhitespace(s[..lo]) && AllWhitespace(s[lo + |r|..])
  {
    var t := TrimStart(s);
    r := TrimEnd(t);
    lo := InfixOfParts(s, t, r);
  }

  /**
   * A suffix `t` of `s` behind whitespace, and a prefix `r` of `t` ahead of
   * whitespace: `r` sits in `s` at `lo` between two runs of whitespace.
   */
  lemma InfixOfParts(s: string, t: string, r: string) returns (lo: nat)
    requires |t| <= |s| && t == s[|s| - |t|..] && AllWhitespace(s[..|s| - |t|])
    requires |r| <= |t| && r == t[..|r|] && AllWhitespace(t[|r|..])
    ensures lo + |r| <= |s| && s[lo..lo + |r|] == r
    ensures AllWhitespace(s[..lo]) && AllWhitespace(s[lo + |r|..])
  {
    lo := |s| - |t|;
    assert s[lo + |r|..] == t[|r|..];
  }

  lemma TrimOfTrimmed(s: string)
    requires Trimmed(s)
    ensures Trim(s) == s
  {
  }

  /** Trimming twice is trimming once. */
  lemma TrimIdempotent(s: string)
    ensures Trim(Trim(s)) == Trim(s)
  {
    TrimOfTrimmed(Trim(s));
  }

  /** Trimming never introduces a character. */
  lemma TrimAvoids(s: string, ch: char)
    requires ch !in s
    ensures ch !in Trim(s)
  {
    var lo, r := TrimIsInfix(s);
    SliceAvoids(s, lo, lo + |r|, ch);
  }

  lemma SliceAvoids(s: string, lo: nat, hi: nat, ch: char)
    requires lo <= hi <= |s| && ch !in s
    ensures ch !in s[lo..hi]
  {
    assert forall k :: 0 <= k < hi - lo ==> s[lo..hi][k] == s[lo + k];
  }

  /** Trailing whitespace after a string that does not end in whitespace is exactly what TrimEnd drops. */
  lemma {:induction false} TrimEndAppend(a: string, w: string)
    requires AllWhitespace(w)
    requires a == [] || !IsWhitespace(a[|a| - 1])
    ensures TrimEnd(a + w) == a
    decreases |w|
  {
    if w == [] {
      assert a + w == a;
    } else {
      var w' := w[..|w| - 1];
      assert (a + w)[..|a + w| - 1] == a + w';
      TrimEndAppend(a, w');
    }
  }

  /** Leading whitespace before a string that does not start with whitespace is exactly what TrimStart drops. */
  lemma {:induction false} TrimStartPrepend(w: string, a: string)
    requires AllWhitespace(w)
    requires a == [] || !IsWhitespace(a[0])
    ensures TrimStart(w + a) == a
    decreases |w|
  {
    if w == [] {
      assert w + a == a;
    } else {
      assert (w + a)[1..] == w[1..] + a;
      TrimStartPrepend(w[1..], a);
    }
  }

  /** A trimmed text between two runs of whitespace is what `trim` returns. */
  lemma TrimSurrounded(w1: string, a: string, w2: string)
    requires AllWhitespace(w1) && AllWhitespace(w2) && Trimmed(a)
    ensures Trim(w1 + a + w2) == a
  {
    assert w1 + a + w2 == w1 + (a + w2);
    if a == [] {
      assert AllWhitespace(w1 + a + w2);
    } else {
      TrimStartPrepend(w1, a + w2);
      TrimEndAppend(a, w2);
    }
  }

  // ---------------------------------------------------------------------------
  // replace(/pat/g, rep)
  // ---------------------------------------------------------------------------

  /**
   * The replacement text for one match (GetSubstitution when the pattern has
   * no capture groups): `$$` is a dollar sign, `$&` the matched text, `` $` ``
   * the text before the match, `$'` the text after it; any other `$` is literal.
   */
  function Expand(rep: string, matched: string, before: string, after: string): string
    decreases |rep|
  {
    if rep == [] then []
    else if |rep| >= 2 && rep[0] == '$' && rep[1] == '$' then "$" + Expand(rep[2..], matched, before, after)
    else if |rep| >= 2 && rep[0] == '$' && rep[1] == '&' then matched + Expand(rep[2..], matched, before, after)
    else if |rep| >= 2 && rep[0] == '$' && rep[1] == '`' then before + Expand(rep[2..], matched, before, after)
    else if |rep| >= 2 && rep[0] == '$' && rep[1] == '\'' then after + Expand(rep[2..], matched, before, after)
    else [rep[0]] + Expand(rep[1..], matched, before, after)
  }

  /** A replacement without `$` is inserted as it is. */
  lemma {:induction false} ExpandLiteral(rep: string, matched: string, before: string, after: string)
    requires '$' !in rep
    ensures Expand(rep, matched, before, after) == rep
    decreases |rep|
  {
    if rep != [] {
      assert rep[0] != '$';
      assert '$' !in rep[1..];
      ExpandLiteral(rep[1..], matched, before, after);
    }
  }

  /** `$&` between two `$`-free texts inserts the matched text between them. */
  lemma ExpandMatched(a: string, b: string, matched: string, before: string, after: string)
    requires '$' !in a && '$' !in b
    ensures Expand(a + "$&" + b, matched, before, after) == a + matched + b
  {
    var rep := a + "$&" + b;
    assert rep[..|a|] == a && rep[|a|..|a| + 2] == "$&" && rep[|a| + 2..] == b;
    ExpandMatchedAt(rep, |a|, matched, before, after);
  }

  /** The same, for the one `$&` of `rep` that starts at index `k`. */
  lemma {:induction false} ExpandMatchedAt(rep: string, k: nat, matched: string, before: string, after: string)
    requires k + 2 <= |rep| && rep[k..k + 2] == "$&"
    requires '$' !in rep[..k] && '$' !in rep[k + 2..]
    ensures Expand(rep, matched, before, after) == rep[..k] + matched + rep[k + 2..]
    decreases k
  {
    if k == 0 {
      ExpandAmpersandStep(rep, matched, before, after);
      ExpandLiteral(rep[2..], matched, before, after);
    } else {
      ShiftMatchedAt(rep, k);
      ExpandMatchedAt(rep[1..], k - 1, matched, before, after);
      ExpandOtherStep(rep, matched, before, after);
    }
  }

  /** Moving the scan one character on keeps the `$&` and the `$`-free text around it. */
  lemma ShiftMatchedAt(rep: string, k: nat)
    requires 1 <= k && k + 2 <= |rep| && rep[k..k + 2] == "$&"
    requires '$' !in rep[..k] && '$' !in rep[k + 2..]
    ensures rep[0] != '$'
    ensures rep[1..][k - 1..k + 1] == "$&"
    ensures '$' !in rep[1..][..k - 1] && '$' !in rep[1..][k + 1..]
    ensures rep[..k] == [rep[0]] + rep[1..][..k - 1] && rep[k + 2..] == rep[1..][k + 1..]
  {
    assert rep[0] in rep[..k];
    assert rep[1..][k - 1..k + 1] == rep[k..k + 2];
    assert rep[1..][..k - 1] == rep[1..k] && rep[1..][k + 1..] == rep[k + 2..];
    assert forall c :: c in rep[1..k] ==> c in rep[..k];
    assert rep[..k] == [rep[0]] + rep[1..k];
  }

  /** A leading `$&` stands for the matched text. */
  lemma ExpandAmpersandStep(rep: string, matched: string, before: string, after: string)
    requires |rep| >= 2 && rep[..2] == "$&"
    ensures Expand(rep, matched, before, after) == matched + Expand(rep[2..], matched, before, after)
  {
    assert rep[0] == '$' && rep[1] == '&';
  }

  /** A leading character other than `$` is copied. */
  lemma ExpandOtherStep(rep: string, matched: string, before: string, after: string)
    requires rep != [] && rep[0] != '$'
    ensures Expand(rep, matched, before, after) == [rep[0]] + Expand(rep[1..], matched, before, after)
  {
  }

  /** The global replace, scanning `s` from index `i` onwards for non-overlapping matches. */
  function ReplaceFrom(s: string, i: nat, pat: string, rep: string): string
    requires pat != [] && i <= |s|
    decreases |s| - i
  {
    if i == |s| then []
    else if MatchAt(s, i, pat) then
      Expand(rep, pat, s[..i], s[i + |pat|..]) + ReplaceFrom(s, i + |pat|, pat, rep)
    else
      [s[i]] + ReplaceFrom(s, i + 1, pat, rep)
  }

  /** Without a match at or after `i`, the scan copies the rest of `s`. */
  lemma {:induction false} ReplaceFromNoMatch(s: string, i: nat, pat: string, rep: string)
    requires pat != [] && i <= |s|
    ensures (forall k: nat :: i <= k ==> !MatchAt(s, k, pat)) ==> ReplaceFrom(s, i, pat, rep) == s[i..]
    decreases |s| - i
  {
    if i < |s| {
      ReplaceFromNoMatch(s, i + 1, pat, rep);
      assert s[i..] == [s[i]] + s[i + 1..];
    }
  }

  /** `s.replace(/pat/g, rep)` for a literal, non-empty `pat`; a string without `pat` passes unchanged. */
  function ReplaceAll(s: string, pat: string, rep: string): (r: string)
    requires pat != []
    ensures !Occurs(pat, s) ==> r == s
  {
    ReplaceFromNoMatch(s, 0, pat, rep);
    assert s[0..] == s;
    ReplaceFrom(s, 0, pat, rep)
  }

  /** Reference definition: every left-to-right, non-overlapping `pat` becomes `rep` verbatim. */
  function LiteralReplace(s: string, pat: string, rep: string): string
    requires pat != []
    decreases |s|
  {
    if s == [] then []
    else if |pat| <= |s| && s[..|pat|] == pat then rep + LiteralReplace(s[|pat|..], pat, rep)
    else [s[0]] + LiteralReplace(s[1..], pat, rep)
  }

  /** A text without the first character of `pat` is copied as it is. */
  lemma {:induction false} LiteralReplaceSkip(a: string, b: string, pat: string, rep: string)
    requires pat != [] && pat[0] !in a
    ensures LiteralReplace(a + b, pat, rep) == a + LiteralReplace(b, pat, rep)
    decreases |a|
  {
    if a == [] {
      assert a + b == b;
    } else {
      var s := a + b;
      assert s[0] == a[0] && s[1..] == a[1..] + b;
      assert |pat| <= |s| ==> s[..|pat|][0] == a[0];
      LiteralReplaceSkip(a[1..], b, pat, rep);
    }
  }

  /** The pattern alone becomes the replacement. */
  lemma LiteralReplacePattern(pat: string, rep: string)
    requires pat != []
    ensures LiteralReplace(pat, pat, rep) == rep
  {
    assert pat[..|pat|] == pat && pat[|pat|..] == [];
  }

  lemma {:induction false} ReplaceFromIsLiteral(s: string, i: nat, pat: string, rep: string)
    requires pat != [] && i <= |s| && '$' !in rep
    ensures ReplaceFrom(s, i, pat, rep) == LiteralReplace(s[i..], pat, rep)
    decreases |s| - i
  {
    if i < |s| {
      if MatchAt(s, i, pat) {
        ReplaceFromIsLiteral(s, i + |pat|, pat, rep);
        ReplaceFromLiteralAtMatch(s, i, pat, rep);
      } else {
        ReplaceFromIsLiteral(s, i + 1, pat, rep);
        ReplaceFromLiteralAtOther(s, i, pat, rep);
      }
    }
  }

  /** The step of `ReplaceFromIsLiteral` at a match. */
  lemma ReplaceFromLiteralAtMatch(s: string, i: nat, pat: string, rep: string)
    requires pat != [] && i < |s| && '$' !in rep && MatchAt(s, i, pat)
    requires ReplaceFrom(s, i + |pat|, pat, rep) == LiteralReplace(s[i + |pat|..], pat, rep)
    ensures ReplaceFrom(s, i, pat, rep) == LiteralReplace(s[i..], pat, rep)
  {
    MatchAtSuffix(s, i, pat);
    ExpandLiteral(rep, pat, s[..i], s[i + |pat|..]);
    LiteralReplaceAtMatch(s[i..], pat, rep);
    assert s[i..][|pat|..] == s[i + |pat|..];
  }

  /** The step of `ReplaceFromIsLiteral` where no match starts. */
  lemma ReplaceFromLiteralAtOther(s: string, i: nat, pat: string, rep: string)
    requires pat != [] && i < |s| && !MatchAt(s, i, pat)
    requires ReplaceFrom(s, i + 1, pat, rep) == LiteralReplace(s[i + 1..], pat, rep)
    ensures ReplaceFrom(s, i, pat, rep) == LiteralReplace(s[i..], pat, rep)
  {
    MatchAtSuffix(s, i, pat);
    LiteralReplaceAtOther(s[i..], pat, rep);
    assert s[i..][1..] == s[i + 1..];
  }

  /** A match at `i` is a match at the start of the suffix from `i`. */
  lemma MatchAtSuffix(s: string, i: nat, pat: string)
    requires i <= |s|
    ensures MatchAt(s, i, pat) <==> |pat| <= |s[i..]| && s[i..][..|pat|] == pat
  {
    if |pat| <= |s[i..]| {
      assert s[i..][..|pat|] == s[i..i + |pat|];
    }
  }

  lemma LiteralReplaceAtMatch(t: string, pat: string, rep: string)
    requires pat != [] && |pat| <= |t| && t[..|pat|] == pat
    ensures LiteralReplace(t, pat, rep) == rep + LiteralReplace(t[|pat|..], pat, rep)
  {
  }

  lemma LiteralReplaceAtOther(t: string, pat: string, rep: string)
    requires pat != [] && t != [] && !(|pat| <= |t| && t[..|pat|] == pat)
    ensures LiteralReplace(t, pat, rep) == [t[0]] + LiteralReplace(t[1..], pat, rep)
  {
  }

  /** When the replacement has no `$`, the global replace is the literal one. */
  lemma ReplaceAllIsLiteral(s: string, pat: string, rep: string)
    requires pat != [] && '$' !in rep
    ensures ReplaceAll(s, pat, rep) == LiteralReplace(s, pat, rep)
  {
    ReplaceFromIsLiteral(s, 0, pat, rep);
    assert s[0..] == s;
  }

  /** The token on its own is replaced by the value expanded for a match with nothing around it. */
  lemma ReplaceAllWhole(pat: string, rep: string)
    requires pat != []
    ensures ReplaceAll(pat, pat, rep) == Expand(rep, pat, [], [])
  {
    assert MatchAt(pat, 0, pat);
    assert pat[..0] == [] && pat[0 + |pat|..] == [];
    assert ReplaceFrom(pat, |pat|, pat, rep) == [];
    assert ReplaceFrom(pat, 0, pat, rep) == Expand(rep, pat, [], []) + [];
  }

  // ---------------------------------------------------------------------------
  // split and join
  // ---------------------------------------------------------------------------

  /** `s.split(sep)` for a non-empty string separator: always at least one piece. */
  function Split(s: string, sep: string): (parts: seq<string>)
    requires sep != []
    ensures |parts| >= 1
    decreases |s|
  {
    if s == [] then [[]]
    else if |sep| <= |s| && s[..|sep|] == sep then [[]] + Split(s[|sep|..], sep)
    else
      var rest := Split(s[1..], sep);
      [[s[0]] + rest[0]] + rest[1..]
  }

  /** `parts.join(sep)`. */
  function Join(parts: seq<string>, sep: string): string
    decreases |parts|
  {
    if |parts| == 0 then []
    else if |parts| == 1 then parts[0]
    else parts[0] + sep + Join(parts[1..], sep)
  }

  /** A string in which the separator does not occur splits into itself alone. */
  lemma {:induction false} SplitWithoutSeparator(s: string, sep: string)
    requires sep != [] && !Occurs(sep, s)
    ensures Split(s, sep) == [s]
    decreases |s|
  {
    if s != [] {
      assert !MatchAt(s, 0, sep);
      OccursInTail(s, sep);
      SplitWithoutSeparator(s[1..], sep);
      assert s == [s[0]] + s[1..];
    }
  }

  /** A one-character pattern occurs exactly where its character does. */
  lemma AbsentCharDoesNotOccur(c: char, s: string)
    requires c !in s
    ensures !Occurs([c], s)
  {
    forall k: nat ensures !MatchAt(s, k, [c]) {
      if k + 1 <= |s| {
        assert s[k..k + 1][0] == s[k];
      }
    }
  }

  /** An occurrence in the tail is an occurrence in the whole text. */
  lemma OccursInTail(s: string, pat: string)
    requires s != []
    ensures Occurs(pat, s[1..]) ==> Occurs(pat, s)
  {
    if Occurs(pat, s[1..]) {
      var k: nat :| MatchAt(s[1..], k, pat);
      assert s[1..][k..k + |pat|] == s[k + 1..k + 1 + |pat|];
      assert MatchAt(s, k + 1, pat);
    }
  }

  /** Splitting a text that starts with the separator. */
  lemma SplitAtSeparator(s: string, sep: string)
    requires sep != [] && |sep| <= |s| && s[..|sep|] == sep
    ensures Split(s, sep) == [[]] + Split(s[|sep|..], sep)
  {
  }

  /** Splitting a text that does not start with the separator. */
  lemma SplitAtOther(s: string, sep: string)
    requires sep != [] && s != [] && !(|sep| <= |s| && s[..|sep|] == sep)
    ensures var rest := Split(s[1..], sep);
      Split(s, sep) == [[s[0]] + rest[0]] + rest[1..]
  {
  }

  /** Joining a list whose first piece has one more character in front. */
  lemma JoinConsFirst(c: char, rest: seq<string>, sep: string)
    requires |rest| >= 1
    ensures Join([[c] + rest[0]] + rest[1..], sep) == [c] + Join(rest, sep)
  {
    var parts := [[c] + rest[0]] + rest[1..];
    if |rest| > 1 {
      assert parts[1..] == rest[1..];
    }
  }

  /** Replacing every `pat` by `rep` is splitting on `pat` and joining with `rep`. */
  lemma {:induction false} LiteralReplaceIsSplitJoin(s: string, pat: string, rep: string)
    requires pat != []
    ensures LiteralReplace(s, pat, rep) == Join(Split(s, pat), rep)
    decreases |s|
  {
    if s == [] {
    } else if |pat| <= |s| && s[..|pat|] == pat {
      LiteralReplaceIsSplitJoin(s[|pat|..], pat, rep);
      SplitAtSeparator(s, pat);
      var rest := Split(s[|pat|..], pat);
      assert ([[]] + rest)[1..] == rest;
    } else {
      LiteralReplaceIsSplitJoin(s[1..], pat, rep);
      SplitAtOther(s, pat);
      JoinConsFirst(s[0], Split(s[1..], pat), rep);
    }
  }

  /** The global replace with a `$`-free value is split-then-join. */
  lemma ReplaceAllIsSplitJoin(s: string, pat: string, rep: string)
    requires pat != [] && '$' !in rep
    ensures ReplaceAll(s, pat, rep) == Join(Split(s, pat), rep)
  {
    ReplaceAllIsLiteral(s, pat, rep);
    LiteralReplaceIsSplitJoin(s, pat, rep);
  }

  lemma {:induction false} LiteralReplaceSelf(s: string, pat: string)
    requires pat != []
    ensures LiteralReplace(s, pat, pat) == s
    decreases |s|
  {
    if s == [] {
    } else if |pat| <= |s| && s[..|pat|] == pat {
      LiteralReplaceSelf(s[|pat|..], pat);
      assert s == s[..|pat|] + s[|pat|..];
    } else {
      LiteralReplaceSelf(s[1..], pat);
      assert s == [s[0]] + s[1..];
    }
  }

  /** Joining the pieces of a split with the separator gives back the string. */
  lemma JoinSplit(s: string, sep: string)
    requires sep != []
    ensures Join(Split(s, sep), sep) == s
  {
    LiteralReplaceIsSplitJoin(s, sep, sep);
    LiteralReplaceSelf(s, sep);
  }

  /** A one-character separator never appears inside a piece. */
  lemma {:induction false} SplitPiecesAvoidSeparator(s: string, c: char)
    ensures forall e <- Split(s, [c]) :: c !in e
    decreases |s|
  {
    if s != [] {
      SplitPiecesAvoidSeparator(s[1..], c);
      if s[0] == c {
        assert s[..1] == [c];
      } else {
        assert s[..1] != [c];
      }
    }
  }

  /** A character absent from `s` is absent from every piece of its split. */
  lemma {:induction false} SplitPiecesAvoid(s: string, sep: string, ch: char)
    requires sep != [] && ch !in s
    ensures forall e <- Split(s, sep) :: ch !in e
    decreases |s|
  {
    if s != [] {
      if |sep| <= |s| && s[..|sep|] == sep {
        assert forall x <- s[|sep|..] :: x in s;
        SplitPiecesAvoid(s[|sep|..], sep, ch);
      } else {
        assert forall x <- s[1..] :: x in s;
        SplitPiecesAvoid(s[1..], sep, ch);
      }
    }
  }
}
