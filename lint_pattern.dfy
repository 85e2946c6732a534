/**
 * The two regular expressions with which `parseLintErrors` recognises a line
 * of the linter's report (frontend/src/utils.js):
 *
 *   rule line:          /:(\d+):(\d+):\s(\w+)\s(.+)/
 *   syntax-error line:  /:(\d+):(\d+):\s(SyntaxError):\s(.+)/
 *
 * Each is modelled twice: as an explicit scanner that tries every start
 * position from the left (`Match`), and as a declarative description of
 * what JavaScript reports as the match at one position (`MatchesAt`).
 * The lemmas prove that the scanner finds exactly the leftmost match the
 * description admits.
 */
module LintPattern {
  import opened Wrappers

  /** `\d`: an ASCII decimal digit. */
  predicate IsDigit(c: char) {
    '0' <= c <= '9'
  }

  /** `\w`: an ASCII letter, an ASCII digit or the underscore. */
  predicate IsWordChar(c: char) {
    'a' <= c <= 'z' || 'A' <= c <= 'Z' || IsDigit(c) || c == '_'
  }

  /** The line terminators of ECMAScript, which `.` does not match. */
  predicate IsLineTerminator(c: char) {
    c == '\n' || c == '\r' || c == '\U{2028}' || c == '\U{2029}'
  }

  /** `\s`: the white space and line terminator characters of ECMAScript. */
  predicate IsSpace(c: char) {
    c == '\t' || c == '\U{000B}' || c == '\U{000C}' || c == ' ' || c == '\U{00A0}'
    || c == '\U{1680}' || ('\U{2000}' <= c <= '\U{200A}') || c == '\U{202F}'
    || c == '\U{205F}' || c == '\U{3000}' || c == '\U{FEFF}'
    || IsLineTerminator(c)
  }

  /** `.`: any character but a line terminator. */
  predicate IsMessageChar(c: char) {
    !IsLineTerminator(c)
  }

  /** A non-empty run of digits, as captured by `(\d+)`. */
  predicate Digits(t: string) {
    |t| > 0 && forall k :: 0 <= k < |t| ==> IsDigit(t[k])
  }

  /** A non-empty run of word characters, as captured by `(\w+)`. */
  predicate Word(t: string) {
    |t| > 0 && forall k :: 0 <= k < |t| ==> IsWordChar(t[k])
  }

  /** A non-empty run without line terminators, as captured by `(.+)`. */
  predicate MessageText(t: string) {
    |t| > 0 && forall k :: 0 <= k < |t| ==> IsMessageChar(t[k])
  }

  const SyntaxErrorCode: string := "SyntaxError"

  datatype Pattern = RulePattern | SyntaxErrorPattern

  /** The four capture groups: line number, column number, code, message. */
  datatype Fields = Fields(lineNum: string, colNum: string, code: string, message: string)

  /**
   * `s` holds `:(\d+):(\d+):\s` at position `p`, with the two digit groups
   * `lineNum` and `colNum`. Each group is followed by a character its class
   * excludes, so backtracking cannot shorten it.
   */
  ghost predicate PositionAt(s: string, p: nat, lineNum: string, colNum: string) {
    var a := p + 1 + |lineNum|;
    var b := a + 1 + |colNum|;
    Digits(lineNum) && Digits(colNum)
    && b + 2 <= |s|
    && s[p] == ':' && s[p + 1..a] == lineNum
    && s[a] == ':' && s[a + 1..b] == colNum
    && s[b] == ':' && IsSpace(s[b + 1])
  }

  /**
   * `s` holds the rest of `pat` at position `n`: `(\w+)\s(.+)` for a rule
   * line, `(SyntaxError):\s(.+)` for a syntax-error line. The message group
   * is last and greedy, so it ends at the end of `s` or at a line terminator.
   */
  ghost predicate TailAt(pat: Pattern, s: string, n: nat, code: string, message: string) {
    var c := n + |code|;
    var m := if pat == RulePattern then c + 1 else c + 2;
    var e := m + |message|;
    (if pat == RulePattern then Word(code) else code == SyntaxErrorCode)
    && MessageText(message)
    && e <= |s|
    && s[n..c] == code
    && (if pat == RulePattern then IsSpace(s[c]) else s[c] == ':' && IsSpace(s[c + 1]))
    && s[m..e] == message
    && (e == |s| || IsLineTerminator(s[e]))
  }

  /** What any match of `pat` captures. */
  predicate Captures(pat: Pattern, f: Fields) {
    Digits(f.lineNum) && Digits(f.colNum) && MessageText(f.message)
    && (if pat == RulePattern then Word(f.code) else f.code == SyntaxErrorCode)
  }

  /** Where the tail of the pattern starts, after `:L:C:` and one space. */
  function TailStart(p: nat, f: Fields): nat {
    p + |f.lineNum| + |f.colNum| + 4
  }

  /** JavaScript reports a match of `pat` at position `p` of `s`, with capture groups `f`. */
  ghost predicate MatchesAt(pat: Pattern, s: string, p: nat, f: Fields) {
    PositionAt(s, p, f.lineNum, f.colNum) && TailAt(pat, s, TailStart(p, f), f.code, f.message)
  }

  /** A match at `p`, and none at any earlier position. */
  ghost predicate LeftmostAt(pat: Pattern, s: string, p: nat, f: Fields) {
    MatchesAt(pat, s, p, f) && forall q, g :: 0 <= q < p ==> !MatchesAt(pat, s, q, g)
  }

  /** The end of the longest run of characters in `inClass` that starts at `i`. */
  function RunEnd(s: string, i: nat, inClass: char -> bool): (j: nat)
    requires i <= |s|
    ensures i <= j <= |s|
    ensures forall k :: i <= k < j ==> inClass(s[k])
    ensures j == |s| || !inClass(s[j])
    decreases |s| - i
  {
    if i < |s| && inClass(s[i]) then RunEnd(s, i + 1, inClass) else i
  }

  lemma {:induction false} RunEndIs(s: string, i: nat, j: nat, inClass: char -> bool)
    requires i <= j <= |s|
    requires forall k :: i <= k < j ==> inClass(s[k])
    requires j == |s| || !inClass(s[j])
    ensures RunEnd(s, i, inClass) == j
    decreases j - i
  {
    if i < j {
      RunEndIs(s, i + 1, j, inClass);
    }
  }

  /** Scans `:(\d+):(\d+):\s` at position `p`; yields the two digit groups. */
  function MatchPositionAt(s: string, p: nat): Option<(string, string)> {
    if p < |s| && s[p] == ':' then
      var a := RunEnd(s, p + 1, IsDigit);
      if p + 1 < a < |s| && s[a] == ':' then
        var b := RunEnd(s, a + 1, IsDigit);
        if a + 1 < b && b + 1 < |s| && s[b] == ':' && IsSpace(s[b + 1]) then
          Some((s[p + 1..a], s[a + 1..b]))
        else None
      else None
    else None
  }

  /** Scans the greedy `(.+)` at position `m`. */
  function MatchMessage(s: string, m: nat): Option<string>
    requires m <= |s|
  {
    var e := RunEnd(s, m, IsMessageChar);
    if m < e then Some(s[m..e]) else None
  }

  /** Scans the tail of `pat` at position `n`; yields the code and message groups. */
  function MatchTail(pat: Pattern, s: string, n: nat): Option<(string, string)>
    requires n <= |s|
  {
    match pat
    case RulePattern =>
      var c := RunEnd(s, n, IsWordChar);
      if n < c < |s| && IsSpace(s[c]) then
        match MatchMessage(s, c + 1)
        case Some(message) => Some((s[n..c], message))
        case None => None
      else None
    case SyntaxErrorPattern =>
      var c := n + |SyntaxErrorCode|;
      if c + 1 < |s| && s[n..c] == SyntaxErrorCode && s[c] == ':' && IsSpace(s[c + 1]) then
        match MatchMessage(s, c + 2)
        case Some(message) => Some((SyntaxErrorCode, message))
        case None => None
      else None
  }

  /** The scanner: tries `pat` at position `p` only, reading left to right. */
  function MatchAt(pat: Pattern, s: string, p: nat): Option<Fields>
  {
    var position := MatchPositionAt(s, p);
    if position.None? then None
    else
      var (lineNum, colNum) := position.value;
      var tail := MatchTail(pat, s, p + |lineNum| + |colNum| + 4);
      if tail.None? then None
      else Some(Fields(lineNum, colNum, tail.value.0, tail.value.1))
  }

  lemma PositionSound(s: string, p: nat)
    ensures var r := MatchPositionAt(s, p);
            r.Some? ==> PositionAt(s, p, r.value.0, r.value.1)
  {
  }

  lemma MessageSound(s: string, m: nat)
    requires m <= |s|
    ensures var r := MatchMessage(s, m);
            && (r.Some? ==> MessageText(r.value) && m + |r.value| <= |s| && s[m..m + |r.value|] == r.value)
            && (r.Some? ==> m + |r.value| == |s| || IsLineTerminator(s[m + |r.value|]))
  {
  }

  lemma TailSound(pat: Pattern, s: string, n: nat)
    requires n <= |s|
    ensures var r := MatchTail(pat, s, n);
            r.Some? ==> TailAt(pat, s, n, r.value.0, r.value.1)
  {
    if pat == RulePattern {
      RuleTailSound(s, n);
    } else {
      SyntaxErrorTailSound(s, n);
    }
  }

  lemma RuleTailSound(s: string, n: nat)
    requires n <= |s|
    ensures var r := MatchTail(RulePattern, s, n);
            r.Some? ==> TailAt(RulePattern, s, n, r.value.0, r.value.1)
  {
    var c := RunEnd(s, n, IsWordChar);
    if n < c < |s| && IsSpace(s[c]) {
      MessageSound(s, c + 1);
      var code := s[n..c];
      assert forall k :: 0 <= k < |code| ==> code[k] == s[n + k];
    }
  }

  lemma SyntaxErrorTailSound(s: string, n: nat)
    requires n <= |s|
    ensures var r := MatchTail(SyntaxErrorPattern, s, n);
            r.Some? ==> TailAt(SyntaxErrorPattern, s, n, r.value.0, r.value.1)
  {
    var c := n + |SyntaxErrorCode|;
    if c + 1 < |s| {
      MessageSound(s, c + 2);
    }
  }


  lemma PositionComplete(s: string, p: nat, lineNum: string, colNum: string)
    requires PositionAt(s, p, lineNum, colNum)
    ensures MatchPositionAt(s, p) == Some((lineNum, colNum))
  {
    var a := p + 1 + |lineNum|;
    var b := a + 1 + |colNum|;
    RunEndIs(s, p + 1, a, IsDigit);
    RunEndIs(s, a + 1, b, IsDigit);
  }

  lemma MessageComplete(s: string, m: nat, message: string)
    requires m + |message| <= |s| && MessageText(message) && s[m..m + |message|] == message
    requires m + |message| == |s| || IsLineTerminator(s[m + |message|])
    ensures MatchMessage(s, m) == Some(message)
  {
    RunEndIs(s, m, m + |message|, IsMessageChar);
  }

  lemma TailComplete(pat: Pattern, s: string, n: nat, code: string, message: string)
    requires TailAt(pat, s, n, code, message)
    ensures MatchTail(pat, s, n) == Some((code, message))
  {
    var c := n + |code|;
    var m := if pat == RulePattern then c + 1 else c + 2;
    if pat == RulePattern {
      RunEndIs(s, n, c, IsWordChar);
    }
    MessageComplete(s, m, message);
  }

  /** Soundness: whatever the scanner finds at `p` is a match JavaScript reports there. */
  lemma MatchAtSound(pat: Pattern, s: string, p: nat)
    ensures MatchAt(pat, s, p).Some? ==> MatchesAt(pat, s, p, MatchAt(pat, s, p).value)
  {
    if MatchAt(pat, s, p).Some? {
      var f := MatchAt(pat, s, p).value;
      MatchAtParts(pat, s, p);
      PositionSound(s, p);
      TailSound(pat, s, TailStart(p, f));
    }
  }

  /** What the scanner found at `p`, its two parts found. */
  lemma MatchAtParts(pat: Pattern, s: string, p: nat)
    requires MatchAt(pat, s, p).Some?
    ensures var f := MatchAt(pat, s, p).value;
            && MatchPositionAt(s, p) == Some((f.lineNum, f.colNum))
            && TailStart(p, f) <= |s|
            && MatchTail(pat, s, TailStart(p, f)) == Some((f.code, f.message))
  {
  }



  /** Completeness: the scanner finds every match JavaScript reports at `p`. */
  lemma {:induction false} MatchAtComplete(pat: Pattern, s: string, p: nat, f: Fields)
    requires MatchesAt(pat, s, p, f)
    ensures MatchAt(pat, s, p) == Some(f)
  {
    PositionComplete(s, p, f.lineNum, f.colNum);
    TailComplete(pat, s, TailStart(p, f), f.code, f.message);
    MatchAtOfParts(pat, s, p, f);
  }

  /** The scanner finds `f` at `p` when its two parts find their groups. */
  lemma MatchAtOfParts(pat: Pattern, s: string, p: nat, f: Fields)
    requires MatchPositionAt(s, p) == Some((f.lineNum, f.colNum))
    requires TailStart(p, f) <= |s| && MatchTail(pat, s, TailStart(p, f)) == Some((f.code, f.message))
    ensures MatchAt(pat, s, p) == Some(f)
  {
  }


  /** The scanner and the description agree at every position, in both directions. */
  lemma MatchAtIff(pat: Pattern, s: string, p: nat, f: Fields)
    ensures MatchAt(pat, s, p) == Some(f) <==> MatchesAt(pat, s, p, f)
  {
    MatchAtSound(pat, s, p);
    if MatchesAt(pat, s, p, f) {
      MatchAtComplete(pat, s, p, f);
    }
  }

  /**
   * The first result of `attempt` at `p`, `p + 1`, ... below `n`: how a
   * regular expression without the global flag is tried at each start index
   * in turn until one matches.
   */
  function FirstFrom(attempt: nat -> Option<Fields>, n: nat, p: nat): Option<Fields>
    decreases n - p
  {
    if p >= n then None
    else
      match attempt(p)
      case Some(f) => Some(f)
      case None => FirstFrom(attempt, n, p + 1)
  }

  /** Tries `pat` at `p`, `p + 1`, ... and yields the first match. */
  function MatchFrom(pat: Pattern, s: string, p: nat): Option<Fields> {
    FirstFrom((q: nat) => MatchAt(pat, s, q), |s|, p)
  }

  /** `s.match(regex)` for the regular expression of `pat`: the leftmost match. */
  function Match(pat: Pattern, s: string): Option<Fields> {
    MatchFrom(pat, s, 0)
  }

  /** The scanner's view of a leftmost match: found at `p`, and at no earlier position. */
  predicate ScannedAt(pat: Pattern, s: string, p: nat, f: Fields) {
    MatchAt(pat, s, p) == Some(f) && forall q :: 0 <= q < p ==> MatchAt(pat, s, q).None?
  }

  /** What the search finds is an attempt that succeeded after every earlier one failed. */
  lemma {:induction false} FirstFromSound(attempt: nat -> Option<Fields>, n: nat, p: nat, f: Fields)
    requires FirstFrom(attempt, n, p) == Some(f)
    ensures exists r :: p <= r < n && attempt(r) == Some(f) && forall q :: p <= q < r ==> attempt(q).None?
    decreases n - p
  {
    if attempt(p) != Some(f) {
      FirstFromSound(attempt, n, p + 1, f);
      var r :| p + 1 <= r < n && attempt(r) == Some(f) && forall q :: p + 1 <= q < r ==> attempt(q).None?;
      assert forall q :: p <= q < r ==> attempt(q).None?;
    }
  }

  /** The search finds the first attempt that succeeds. */
  lemma {:induction false} FirstFromFinds(attempt: nat -> Option<Fields>, n: nat, p: nat, r: nat, f: Fields)
    requires p <= r < n && attempt(r) == Some(f)
    requires forall q :: p <= q < r ==> attempt(q).None?
    ensures FirstFrom(attempt, n, p) == Some(f)
    decreases r - p
  {
    if p < r {
      FirstFromFinds(attempt, n, p + 1, r, f);
    }
  }

  /** A search that finds nothing had every attempt fail. */
  lemma {:induction false} FirstFromNone(attempt: nat -> Option<Fields>, n: nat, p: nat, q: nat)
    requires p <= q < n
    requires FirstFrom(attempt, n, p) == None
    ensures attempt(q) == None
    decreases q - p
  {
    if p < q {
      FirstFromNone(attempt, n, p + 1, q);
    }
  }

  lemma MatchFromSound(pat: Pattern, s: string, f: Fields)
    requires Match(pat, s) == Some(f)
    ensures exists r :: ScannedAt(pat, s, r, f)
  {
    var attempt := (q: nat) => MatchAt(pat, s, q);
    FirstFromSound(attempt, |s|, 0, f);
    var r :| 0 <= r < |s| && attempt(r) == Some(f) && forall q :: 0 <= q < r ==> attempt(q).None?;
    forall q | 0 <= q < r ensures MatchAt(pat, s, q).None? {
      assert attempt(q).None?;
    }
    assert ScannedAt(pat, s, r, f);
  }

  lemma MatchFromFinds(pat: Pattern, s: string, r: nat, f: Fields)
    requires ScannedAt(pat, s, r, f)
    ensures Match(pat, s) == Some(f)
  {
    var attempt := (q: nat) => MatchAt(pat, s, q);
    FirstFromFinds(attempt, |s|, 0, r, f);
  }

  lemma MatchFromNone(pat: Pattern, s: string, q: nat)
    requires Match(pat, s) == None
    ensures MatchAt(pat, s, q) == None
  {
    var attempt := (q: nat) => MatchAt(pat, s, q);
    if q < |s| {
      FirstFromNone(attempt, |s|, 0, q);
    }
  }

  /** The two views of "leftmost" agree. */
  lemma ScannedIsLeftmost(pat: Pattern, s: string, p: nat, f: Fields)
    ensures ScannedAt(pat, s, p, f) <==> LeftmostAt(pat, s, p, f)
  {
    forall q: nat, g {
      MatchAtIff(pat, s, q, g);
    }
    forall q: nat {
      MatchAtSound(pat, s, q);
    }
  }

  /** `Match` yields `f` exactly when `f` is the leftmost match JavaScript reports. */
  lemma MatchIsLeftmost(pat: Pattern, s: string, f: Fields)
    ensures Match(pat, s) == Some(f) <==> exists p :: LeftmostAt(pat, s, p, f)
  {
    if Match(pat, s) == Some(f) {
      MatchFromSound(pat, s, f);
      var p :| ScannedAt(pat, s, p, f);
      ScannedIsLeftmost(pat, s, p, f);
    }
    if exists p :: LeftmostAt(pat, s, p, f) {
      var p :| LeftmostAt(pat, s, p, f);
      ScannedIsLeftmost(pat, s, p, f);
      MatchFromFinds(pat, s, p, f);
    }
  }

  /** `Match` yields nothing exactly when `pat` matches at no position. */
  lemma MatchNone(pat: Pattern, s: string)
    ensures Match(pat, s) == None <==> forall p, g :: !MatchesAt(pat, s, p, g)
  {
    if Match(pat, s) == None {
      forall p: nat, g ensures !MatchesAt(pat, s, p, g) {
        MatchFromNone(pat, s, p);
        MatchAtIff(pat, s, p, g);
      }
    } else {
      var f := Match(pat, s).value;
      MatchIsLeftmost(pat, s, f);
    }
  }

  /** Every match, wherever it was found, captures groups of the pattern's shape. */
  lemma MatchCaptures(pat: Pattern, s: string)
    ensures Match(pat, s).Some? ==> Captures(pat, Match(pat, s).value)
  {
    if Match(pat, s).Some? {
      MatchIsLeftmost(pat, s, Match(pat, s).value);
    }
  }

  /** No match can start at a position that does not hold `:` followed by a digit. */
  lemma NoMatchWithoutColonDigit(pat: Pattern, s: string, p: nat)
    requires p + 1 >= |s| || s[p] != ':' || !IsDigit(s[p + 1])
    ensures MatchAt(pat, s, p) == None
  {
  }

  /** The report line `pre:L:C:<space>CODE<space>message`, as the linter writes it. */
  function RuleLine(pre: string, lineNum: string, colNum: string, sp1: char, code: string, sp2: char, message: string): string {
    pre + ":" + lineNum + ":" + colNum + ":" + [sp1] + code + [sp2] + message
  }

  /** The report line `pre:L:C:<space>SyntaxError:<space>message`. */
  function SyntaxErrorLine(pre: string, lineNum: string, colNum: string, sp1: char, sp2: char, message: string): string {
    pre + ":" + lineNum + ":" + colNum + ":" + [sp1] + SyntaxErrorCode + ":" + [sp2] + message
  }

  /** No `:` of `t` is followed by a digit of `t`. */
  predicate NoColonDigit(t: string) {
    forall k | 0 <= k < |t| - 1 && t[k] == ':' :: !IsDigit(t[k + 1])
  }

  /**
   * A match that starts after a prefix in which no `:` is followed by a
   * digit is the leftmost one.
   */
  lemma MatchAfterColonDigitFreePrefix(pat: Pattern, s: string, p: nat, f: Fields)
    requires p <= |s| && NoColonDigit(s[..p])
    requires MatchesAt(pat, s, p, f)
    ensures Match(pat, s) == Some(f)
  {
    forall q, g | 0 <= q < p ensures !MatchesAt(pat, s, q, g) {
      if q + 1 < p {
        assert s[q] == s[..p][q] && s[q + 1] == s[..p][q + 1];
      }
      NoMatchWithoutColonDigit(pat, s, q);
      MatchAtIff(pat, s, q, g);
    }
    assert LeftmostAt(pat, s, p, f);
    MatchIsLeftmost(pat, s, f);
  }

  /** `:L:C:<space>` after `pre` holds the position part of a match at `|pre|`. */
  lemma PositionAfter(pre: string, lineNum: string, colNum: string, sp1: char, rest: string)
    requires Digits(lineNum) && Digits(colNum) && IsSpace(sp1)
    ensures PositionAt(pre + ":" + lineNum + ":" + colNum + ":" + [sp1] + rest, |pre|, lineNum, colNum)
  {
    var s := pre + ":" + lineNum + ":" + colNum + ":" + [sp1] + rest;
    var p := |pre|;
    var a := p + 1 + |lineNum|;
    var b := a + 1 + |colNum|;
    assert s[p..a] == ":" + lineNum;
    assert s[p + 1..a] == lineNum by { assert s[p + 1..a] == s[p..a][1..]; }
    assert s[a..b + 2] == ":" + colNum + ":" + [sp1];
    assert s[a + 1..b] == colNum by { assert s[a + 1..b] == s[a..b + 2][1..1 + |colNum|]; }
  }

  /** `CODE<space>message` after `pre` is the tail of a rule-pattern match. */
  lemma RuleTailAfter(pre: string, code: string, sp2: char, message: string)
    requires Word(code) && MessageText(message) && IsSpace(sp2)
    ensures TailAt(RulePattern, pre + code + [sp2] + message, |pre|, code, message)
  {
    var s := pre + code + [sp2] + message;
    var c := |pre| + |code|;
    assert s[|pre|..c] == code;
    assert s[c + 1..] == message;
  }

  /** `SyntaxError:<space>message` after `pre` is the tail of a syntax-error match. */
  lemma SyntaxErrorTailAfter(pre: string, sp2: char, message: string)
    requires MessageText(message) && IsSpace(sp2)
    ensures TailAt(SyntaxErrorPattern, pre + SyntaxErrorCode + ":" + [sp2] + message, |pre|, SyntaxErrorCode, message)
  {
    var s := pre + SyntaxErrorCode + ":" + [sp2] + message;
    var c := |pre| + |SyntaxErrorCode|;
    assert s[|pre|..c] == SyntaxErrorCode;
    assert s[c + 2..] == message;
  }

  /**
   * Matching is unanchored: whatever precedes the `:L:C:` of a rule line
   * (a file path, indentation) is skipped when no `:` in it is followed by
   * a digit, and the groups are exactly the
   * line number, column, code and message written there.
   */
  lemma RuleLineMatches(pre: string, lineNum: string, colNum: string, sp1: char, code: string, sp2: char, message: string)
    requires NoColonDigit(pre)
    requires Digits(lineNum) && Digits(colNum) && Word(code) && MessageText(message)
    requires IsSpace(sp1) && IsSpace(sp2)
    ensures Match(RulePattern, RuleLine(pre, lineNum, colNum, sp1, code, sp2, message))
         == Some(Fields(lineNum, colNum, code, message))
  {
    var head := pre + ":" + lineNum + ":" + colNum + ":" + [sp1];
    var s := head + code + [sp2] + message;
    var f := Fields(lineNum, colNum, code, message);
    assert RuleLine(pre, lineNum, colNum, sp1, code, sp2, message) == s;
    assert s == pre + ":" + lineNum + ":" + colNum + ":" + [sp1] + (code + [sp2] + message);
    PositionAfter(pre, lineNum, colNum, sp1, code + [sp2] + message);
    RuleTailAfter(head, code, sp2, message);
    assert TailStart(|pre|, f) == |head|;
    assert s[..|pre|] == pre;
    MatchAfterColonDigitFreePrefix(RulePattern, s, |pre|, f);
  }

  /** Where each piece of a syntax-error line sits. */
  lemma SyntaxErrorLineLayout(pre: string, lineNum: string, colNum: string, sp1: char, sp2: char, message: string)
    ensures var s := SyntaxErrorLine(pre, lineNum, colNum, sp1, sp2, message);
            var p := |pre|;
            var a := p + 1 + |lineNum|;
            var b := a + 1 + |colNum|;
            var n := b + 2;
            var c := n + |SyntaxErrorCode|;
            && |s| == c + 2 + |message|
            && (forall k | 0 <= k < p :: s[k] == pre[k])
            && s[p] == ':'
            && (forall k | p < k < a :: s[k] == lineNum[k - p - 1])
            && s[a] == ':'
            && (forall k | a < k < b :: s[k] == colNum[k - a - 1])
            && s[b] == ':' && s[b + 1] == sp1
            && (forall k | n <= k < c :: s[k] == SyntaxErrorCode[k - n])
            && s[c] == ':' && s[c + 1] == sp2
            && (forall k | c + 2 <= k < |s| :: s[k] == message[k - c - 2])
  {
  }

  /**
   * The shape of a syntax-error line seen by the rule pattern: `:` at `p`,
   * `a`, `b` and `c`, digits between `p`, `a` and `b`, a space after `b`
   * and after `c`, the word `SyntaxError` between, and no `:` but those at
   * `p` and `a` followed by a digit.
   */
  ghost predicate SyntaxErrorShape(s: string, p: nat, a: nat, b: nat, c: nat) {
    p + 1 < a && a + 1 < b && b + 2 < c && c + 1 < |s|
    && s[p] == ':' && s[a] == ':' && s[b] == ':' && s[c] == ':'
    && (forall k | p < k < a :: IsDigit(s[k]))
    && (forall k | a < k < b :: IsDigit(s[k]))
    && IsSpace(s[b + 1]) && IsSpace(s[c + 1])
    && (forall k | b + 2 <= k < c :: IsWordChar(s[k]))
    && (forall k | 0 <= k < |s| && s[k] == ':' && k != p && k != a :: k + 1 >= |s| || !IsDigit(s[k + 1]))
  }

  lemma NoRuleMatchAtFirstColon(s: string, p: nat, a: nat, b: nat, c: nat)
    requires SyntaxErrorShape(s, p, a, b, c)
    ensures MatchAt(RulePattern, s, p) == None
  {
    var lineNum, colNum := s[p + 1..a], s[a + 1..b];
    RunEndIs(s, p + 1, a, IsDigit);
    RunEndIs(s, a + 1, b, IsDigit);
    assert MatchPositionAt(s, p) == Some((lineNum, colNum));
    RuleTailStopsAtColon(s, b + 2, c);
    MatchAtNoneWithoutTail(RulePattern, s, p, lineNum, colNum);
  }

  /** `(\w+)\s` fails where the word is followed by `:`. */
  lemma RuleTailStopsAtColon(s: string, n: nat, c: nat)
    requires n <= c < |s| && s[c] == ':'
    requires forall k | n <= k < c :: IsWordChar(s[k])
    ensures MatchTail(RulePattern, s, n) == None
  {
    RunEndIs(s, n, c, IsWordChar);
  }

  /** The scanner finds nothing at `p` when the tail fails after the position part. */
  lemma MatchAtNoneWithoutTail(pat: Pattern, s: string, p: nat, lineNum: string, colNum: string)
    requires MatchPositionAt(s, p) == Some((lineNum, colNum))
    requires p + |lineNum| + |colNum| + 4 <= |s|
    requires MatchTail(pat, s, p + |lineNum| + |colNum| + 4) == None
    ensures MatchAt(pat, s, p) == None
  {
  }


  lemma NoRuleMatchAtSecondColon(s: string, p: nat, a: nat, b: nat, c: nat)
    requires SyntaxErrorShape(s, p, a, b, c)
    ensures MatchAt(RulePattern, s, a) == None
  {
    RunEndIs(s, a + 1, b, IsDigit);
    assert MatchPositionAt(s, a) == None;
  }

  lemma NoRuleMatchInSyntaxErrorShape(s: string, p: nat, a: nat, b: nat, c: nat)
    requires SyntaxErrorShape(s, p, a, b, c)
    ensures Match(RulePattern, s) == None
  {
    forall q: nat, g ensures !MatchesAt(RulePattern, s, q, g) {
      if q == p {
        NoRuleMatchAtFirstColon(s, p, a, b, c);
      } else if q == a {
        NoRuleMatchAtSecondColon(s, p, a, b, c);
      } else {
        NoMatchWithoutColonDigit(RulePattern, s, q);
      }
      MatchAtIff(RulePattern, s, q, g);
    }
    MatchNone(RulePattern, s);
  }

  /**
   * A syntax-error line never matches the rule pattern: `\w+` takes the
   * word `SyntaxError`, and the `:` after it is not the `\s` the rule
   * pattern needs. No other `:` of the line starts `:digits:digits:\s`,
   * provided neither the prefix nor the message holds a `:` followed by a
   * digit; a message such as `Expected ':', found newline` qualifies.
   */
  lemma SyntaxErrorLineIsNoRuleLine(pre: string, lineNum: string, colNum: string, sp1: char, sp2: char, message: string)
    requires NoColonDigit(pre) && NoColonDigit(message)
    requires Digits(lineNum) && Digits(colNum) && IsSpace(sp1) && IsSpace(sp2)
    ensures Match(RulePattern, SyntaxErrorLine(pre, lineNum, colNum, sp1, sp2, message)) == None
  {
    var s := SyntaxErrorLine(pre, lineNum, colNum, sp1, sp2, message);
    var p := |pre|;
    var a := p + 1 + |lineNum|;
    var b := a + 1 + |colNum|;
    var c := b + 2 + |SyntaxErrorCode|;
    SyntaxErrorLineLayout(pre, lineNum, colNum, sp1, sp2, message);
    SyntaxErrorLineRuns(pre, lineNum, colNum, sp1, sp2, message);
    SyntaxErrorLineColons(pre, lineNum, colNum, sp1, sp2, message);
    assert SyntaxErrorShape(s, p, a, b, c);
    NoRuleMatchInSyntaxErrorShape(s, p, a, b, c);
  }

  /** The digit runs and the word of a syntax-error line, by position. */
  lemma SyntaxErrorLineRuns(pre: string, lineNum: string, colNum: string, sp1: char, sp2: char, message: string)
    requires Digits(lineNum) && Digits(colNum)
    ensures var s := SyntaxErrorLine(pre, lineNum, colNum, sp1, sp2, message);
            var p := |pre|;
            var a := p + 1 + |lineNum|;
            var b := a + 1 + |colNum|;
            var c := b + 2 + |SyntaxErrorCode|;
            && |s| == c + 2 + |message|
            && (forall k | p < k < a :: IsDigit(s[k]))
            && (forall k | a < k < b :: IsDigit(s[k]))
            && (forall k | b + 2 <= k < c :: IsWordChar(s[k]) && s[k] != ':')
  {
    var s := SyntaxErrorLine(pre, lineNum, colNum, sp1, sp2, message);
    var p := |pre|;
    var a := p + 1 + |lineNum|;
    var b := a + 1 + |colNum|;
    var n := b + 2;
    var c := n + |SyntaxErrorCode|;
    SyntaxErrorLineLayout(pre, lineNum, colNum, sp1, sp2, message);
    forall k | p < k < a ensures IsDigit(s[k]) {
      assert s[k] == lineNum[k - p - 1];
    }
    forall k | a < k < b ensures IsDigit(s[k]) {
      assert s[k] == colNum[k - a - 1];
    }
    forall k | n <= k < c ensures IsWordChar(s[k]) && s[k] != ':' {
      assert s[k] == SyntaxErrorCode[k - n];
    }
  }

  /** Of the colons of a syntax-error line, only the two before `L` and `C` are followed by a digit. */
  lemma SyntaxErrorLineColons(pre: string, lineNum: string, colNum: string, sp1: char, sp2: char, message: string)
    requires NoColonDigit(pre) && NoColonDigit(message)
    requires Digits(lineNum) && Digits(colNum) && IsSpace(sp1) && IsSpace(sp2)
    ensures var s := SyntaxErrorLine(pre, lineNum, colNum, sp1, sp2, message);
            var p := |pre|;
            var a := p + 1 + |lineNum|;
            forall k | 0 <= k < |s| && s[k] == ':' && k != p && k != a :: k + 1 >= |s| || !IsDigit(s[k + 1])
  {
    var s := SyntaxErrorLine(pre, lineNum, colNum, sp1, sp2, message);
    var p := |pre|;
    var a := p + 1 + |lineNum|;
    var b := a + 1 + |colNum|;
    var n := b + 2;
    var c := n + |SyntaxErrorCode|;
    SyntaxErrorLineLayout(pre, lineNum, colNum, sp1, sp2, message);
    SyntaxErrorLineRuns(pre, lineNum, colNum, sp1, sp2, message);
    forall k | 0 <= k < |s| && s[k] == ':' && k != p && k != a && k + 1 < |s| ensures !IsDigit(s[k + 1]) {
      if k + 1 < p {
        assert s[k] == pre[k] && s[k + 1] == pre[k + 1];
      } else if c + 2 <= k {
        assert s[k] == message[k - c - 2] && s[k + 1] == message[k + 1 - c - 2];
      }
    }
  }


  /** The fallback pattern takes a syntax-error line, with `SyntaxError` as its code. */
  lemma SyntaxErrorLineMatches(pre: string, lineNum: string, colNum: string, sp1: char, sp2: char, message: string)
    requires NoColonDigit(pre)
    requires Digits(lineNum) && Digits(colNum) && MessageText(message)
    requires IsSpace(sp1) && IsSpace(sp2)
    ensures Match(SyntaxErrorPattern, SyntaxErrorLine(pre, lineNum, colNum, sp1, sp2, message))
         == Some(Fields(lineNum, colNum, SyntaxErrorCode, message))
  {
    var head := pre + ":" + lineNum + ":" + colNum + ":" + [sp1];
    var s := head + SyntaxErrorCode + ":" + [sp2] + message;
    var f := Fields(lineNum, colNum, SyntaxErrorCode, message);
    assert SyntaxErrorLine(pre, lineNum, colNum, sp1, sp2, message) == s;
    assert s == pre + ":" + lineNum + ":" + colNum + ":" + [sp1] + (SyntaxErrorCode + ":" + [sp2] + message);
    PositionAfter(pre, lineNum, colNum, sp1, SyntaxErrorCode + ":" + [sp2] + message);
    SyntaxErrorTailAfter(head, sp2, message);
    assert TailStart(|pre|, f) == |head|;
    assert s[..|pre|] == pre;
    MatchAfterColonDigitFreePrefix(SyntaxErrorPattern, s, |pre|, f);
  }
}
