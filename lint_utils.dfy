/**
 * The lint-report parser of the playground's editor (frontend/src/utils.js):
 * `mapSeverity`, which classifies a linter rule code, and `parseLintErrors`,
 * which turns the linter's text report into editor diagnostics.
 *
 * The editor document is passed in as its table of lines: line number `L`
 * (counted from 1) is the character range `doc[L - 1]`.
 */
module LintUtils {
  import opened Wrappers
  import opened LintPattern

  /** `s.startsWith(prefix)`. */
  predicate StartsWith(s: string, prefix: string) {
    prefix <= s
  }

  /** The three severities the editor knows, as the strings the source uses. */
  predicate IsSeverity(severity: string) {
    severity == "error" || severity == "warning" || severity == "info"
  }

  /**
   * `mapSeverity`: a code starting with `E` is an error, one starting with
   * `W` a warning, every other string (the empty one included) is info.
   */
  function MapSeverity(errorCode: string): (severity: string)
    ensures IsSeverity(severity)
    ensures severity == "error" <==> StartsWith(errorCode, "E")
    ensures severity == "warning" <==> !StartsWith(errorCode, "E") && StartsWith(errorCode, "W")
    ensures severity == "info" <==> !StartsWith(errorCode, "E") && !StartsWith(errorCode, "W")
  {
    if StartsWith(errorCode, "E") then "error"
    else if StartsWith(errorCode, "W") then "warning"
    else "info"
  }

  /** The severity is decided by the code's first character alone; an empty code is informational. */
  lemma MapSeverityByFirstChar(a: string, b: string)
    ensures a == [] ==> MapSeverity(a) == "info"
    ensures a != [] && b != [] && a[0] == b[0] ==> MapSeverity(a) == MapSeverity(b)
  {
    if a != [] && b != [] && a[0] == b[0] {
      assert StartsWith(a, "E") <==> a[0] == 'E';
      assert StartsWith(b, "E") <==> b[0] == 'E';
      assert StartsWith(a, "W") <==> a[0] == 'W';
      assert StartsWith(b, "W") <==> b[0] == 'W';
    }
  }

  /** `s.split(sep)` for a one-character separator: the pieces between separators. */
  function Split(s: string, sep: char): (parts: seq<string>)
    ensures |parts| > 0
    ensures forall i :: 0 <= i < |parts| ==> sep !in parts[i]
    decreases |s|
  {
    if s == [] then [[]]
    else
      var rest := Split(s[1..], sep);
      if s[0] == sep then [[]] + rest else [[s[0]] + rest[0]] + rest[1..]
  }

  /** `parts.join(sep)`: the inverse of `Split`. */
  function Join(parts: seq<string>, sep: char): string {
    if parts == [] then []
    else if |parts| == 1 then parts[0]
    else parts[0] + [sep] + Join(parts[1..], sep)
  }

  /** Splitting and joining again gives back the report. */
  lemma {:induction false} JoinSplit(s: string, sep: char)
    ensures Join(Split(s, sep), sep) == s
    decreases |s|
  {
    if s != [] {
      var rest := Split(s[1..], sep);
      JoinSplit(s[1..], sep);
      if s[0] == sep {
        assert Split(s, sep) == [[]] + rest;
      } else {
        var parts := [[s[0]] + rest[0]] + rest[1..];
        if |rest| == 1 {
          assert parts == [[s[0]] + rest[0]];
        } else {
          assert parts[1..] == rest[1..];
          assert Join(rest, sep) == rest[0] + [sep] + Join(rest[1..], sep);
        }
      }
    }
  }

  /** Splitting a prefix free of the separator extends the first piece. */
  lemma {:induction false} SplitAfterPiece(piece: string, rest: string, sep: char)
    requires sep !in piece
    ensures Split(piece + rest, sep) == [piece + Split(rest, sep)[0]] + Split(rest, sep)[1..]
    decreases |piece|
  {
    var parts := Split(rest, sep);
    if piece != [] {
      SplitAfterPiece(piece[1..], rest, sep);
      assert (piece + rest)[1..] == piece[1..] + rest;
      var tail := Split(piece[1..] + rest, sep);
      assert tail[0] == piece[1..] + parts[0] && tail[1..] == parts[1..];
      assert [piece[0]] + tail[0] == piece + parts[0];
    } else {
      assert piece + rest == rest;
      assert piece + parts[0] == parts[0];
      assert [parts[0]] + parts[1..] == parts;
    }
  }

  /** Joining pieces free of the separator and splitting again gives back the pieces. */
  lemma {:induction false} SplitJoin(parts: seq<string>, sep: char)
    requires |parts| > 0
    requires forall i :: 0 <= i < |parts| ==> sep !in parts[i]
    ensures Split(Join(parts, sep), sep) == parts
    decreases |parts|
  {
    if |parts| == 1 {
      SplitAfterPiece(parts[0], [], sep);
      assert parts[0] + [] == parts[0];
    } else {
      var rest := [sep] + Join(parts[1..], sep);
      SplitJoin(parts[1..], sep);
      assert Join(parts, sep) == parts[0] + rest;
      SplitAfterPiece(parts[0], rest, sep);
      assert rest[1..] == Join(parts[1..], sep);
      assert Split(rest, sep) == [[]] + parts[1..];
      assert parts[0] + [] == parts[0];
      assert [parts[0]] + parts[1..] == parts;
    }
  }

  /** The value of one decimal digit. */
  function DigitValue(c: char): (v: nat)
    requires IsDigit(c)
    ensures v < 10
  {
    assert '0' as int <= c as int <= '9' as int;
    c as int - '0' as int
  }

  /** `parseInt` of a run of decimal digits. */
  function ParseDecimal(digits: string): nat
    requires forall k :: 0 <= k < |digits| ==> IsDigit(digits[k])
    decreases |digits|
  {
    if digits == [] then 0
    else 10 * ParseDecimal(digits[..|digits| - 1]) + DigitValue(digits[|digits| - 1])
  }

  /** The digit whose value is `d`. */
  function DigitChar(d: nat): (c: char)
    requires d < 10
    ensures IsDigit(c) && DigitValue(c) == d
  {
    ('0' as int + d) as char
  }

  /** `String(n)`: the decimal digits of `n`, without leading zeros. */
  function DecimalString(n: nat): (s: string)
    ensures Digits(s)
    ensures |s| > 1 ==> s[0] != '0'
  {
    if n < 10 then [DigitChar(n)] else DecimalString(n / 10) + [DigitChar(n % 10)]
  }

  /** `parseInt` reads back every number written in decimal. */
  lemma {:induction false} ParseDecimalOfDecimalString(n: nat)
    ensures ParseDecimal(DecimalString(n)) == n
  {
    var s := DecimalString(n);
    if n < 10 {
      assert s[..0] == [];
    } else {
      ParseDecimalOfDecimalString(n / 10);
      assert s[..|s| - 1] == DecimalString(n / 10);
    }
  }

  /** The character range `{from, to}` of one line of the editor document. */
  datatype LineRange = LineRange(from: nat, to: nat)

  /** The editor document as its line table: `doc.line(L)` is `doc[L - 1]`. */
  type Document = seq<LineRange>

  /** One editor diagnostic: a character range, a severity and a message. */
  datatype Diagnostic = Diagnostic(from: int, to: int, severity: string, message: string)

  /** The match `parseLintErrors` takes for a line: the rule pattern, else the syntax-error pattern. */
  function LineMatch(line: string): (m: Option<Fields>)
    ensures m.Some? ==> Digits(m.value.lineNum) && Digits(m.value.colNum) && MessageText(m.value.message)
  {
    MatchCaptures(RulePattern, line);
    MatchCaptures(SyntaxErrorPattern, line);
    var rule := Match(RulePattern, line);
    if rule.Some? then rule else Match(SyntaxErrorPattern, line)
  }

  /** The line number a matched line names lies inside the document. */
  predicate InDocument(line: string, doc: Document) {
    match LineMatch(line)
    case None => true
    case Some(f) => 1 <= ParseDecimal(f.lineNum) <= |doc|
  }

  /** Every line of the report that matches names a line of the document. */
  predicate ReportInDocument(lines: seq<string>, doc: Document) {
    forall i :: 0 <= i < |lines| ==> InDocument(lines[i], doc)
  }

  /**
   * The diagnostic for the fields of a matched line: from the reported
   * column of the reported line (both counted from 1) to the end of that
   * line, with the severity of the code and the message as captured.
   */
  function FieldsDiagnostic(f: Fields, doc: Document): (d: Diagnostic)
    requires Digits(f.lineNum) && Digits(f.colNum)
    requires 1 <= ParseDecimal(f.lineNum) <= |doc|
    ensures d.from == doc[ParseDecimal(f.lineNum) - 1].from + ParseDecimal(f.colNum) - 1
    ensures d.to == doc[ParseDecimal(f.lineNum) - 1].to
    ensures d.severity == MapSeverity(f.code) && d.message == f.message
  {
    var editorLine := doc[ParseDecimal(f.lineNum) - 1];
    Diagnostic(editorLine.from + ParseDecimal(f.colNum) - 1, editorLine.to, MapSeverity(f.code), f.message)
  }

  /**
   * The diagnostic one report line yields: nothing for a line neither
   * pattern matches; otherwise the range from column `C` of line `L` to the
   * end of that line, the severity of the code and the captured message.
   */
  function LineDiagnostic(line: string, doc: Document): (d: Option<Diagnostic>)
    requires InDocument(line, doc)
    ensures d.Some? <==> LineMatch(line).Some?
    ensures d.Some? ==> IsSeverity(d.value.severity) && MessageText(d.value.message)
  {
    match LineMatch(line)
    case None => None
    case Some(f) => Some(FieldsDiagnostic(f, doc))
  }

  /** The diagnostics of a report split into lines, in the order of the lines. */
  function Diagnostics(lines: seq<string>, doc: Document): seq<Diagnostic>
    requires ReportInDocument(lines, doc)
  {
    if lines == [] then []
    else
      var last := lines[|lines| - 1];
      var init := Diagnostics(lines[..|lines| - 1], doc);
      match LineDiagnostic(last, doc)
      case None => init
      case Some(d) => init + [d]
  }

  /** One more line of the report adds its diagnostic, if any, after those of the lines before it. */
  lemma DiagnosticsStep(lines: seq<string>, doc: Document, i: nat)
    requires ReportInDocument(lines, doc) && i < |lines|
    ensures ReportInDocument(lines[..i], doc) && ReportInDocument(lines[..i + 1], doc)
    ensures InDocument(lines[i], doc)
    ensures Diagnostics(lines[..i + 1], doc)
         == Diagnostics(lines[..i], doc)
            + (match LineDiagnostic(lines[i], doc) case Some(d) => [d] case None => [])
  {
    var prefix := lines[..i + 1];
    assert prefix[..i] == lines[..i] && prefix[i] == lines[i];
    assert forall k :: 0 <= k < i + 1 ==> prefix[k] == lines[k];
    assert forall k :: 0 <= k < i ==> lines[..i][k] == lines[k];
  }

  /** Appending a line to a report appends its diagnostic, if any. */
  lemma DiagnosticsSnoc(lines: seq<string>, line: string, doc: Document)
    requires ReportInDocument(lines, doc) && InDocument(line, doc)
    ensures ReportInDocument(lines + [line], doc)
    ensures Diagnostics(lines + [line], doc)
         == Diagnostics(lines, doc) + (match LineDiagnostic(line, doc) case Some(d) => [d] case None => [])
  {
    var all := lines + [line];
    assert forall k :: 0 <= k < |lines| ==> all[k] == lines[k];
    assert all[..|lines|] == lines && all[|lines|] == line;
  }

  /** `parseLintErrors(lintOutput, doc)`. */
  method ParseLintErrors(lintOutput: string, doc: Document) returns (errors: seq<Diagnostic>)
    requires ReportInDocument(Split(lintOutput, '\n'), doc)
    ensures errors == Diagnostics(Split(lintOutput, '\n'), doc)
  {
    errors := [];
    var lines := Split(lintOutput, '\n');
    assert lines[..0] == [];
    for i := 0 to |lines|
      invariant ReportInDocument(lines[..i], doc)
      invariant errors == Diagnostics(lines[..i], doc)
    {
      var line := lines[i];
      DiagnosticsStep(lines, doc, i);
      var m := Match(RulePattern, line);
      if m.None? {
        m := Match(SyntaxErrorPattern, line);
      }
      assert m == LineMatch(line);
      if m.Some? {
        var lineNumInt := ParseDecimal(m.value.lineNum);
        var colNumInt := ParseDecimal(m.value.colNum);
        var editorLine := doc[lineNumInt - 1];
        var from := editorLine.from + colNumInt - 1;
        var to := editorLine.to;
        var diagnostic := Diagnostic(from, to, MapSeverity(m.value.code), m.value.message);
        assert diagnostic == FieldsDiagnostic(m.value, doc);
        errors := errors + [diagnostic];
      }
    }
    assert lines[..|lines|] == lines;
  }


  /** The indices of the report lines that one of the two patterns matches. */
  function MatchedLines(lines: seq<string>): seq<nat> {
    if lines == [] then []
    else
      var n := |lines| - 1;
      MatchedLines(lines[..n]) + (if LineMatch(lines[n]).Some? then [n] else [])
  }

  /** The matched indices are line indices in strictly increasing order. */
  lemma {:induction false} MatchedLinesIncrease(lines: seq<string>)
    ensures var idx := MatchedLines(lines);
            && |idx| <= |lines|
            && (forall j :: 0 <= j < |idx| ==> idx[j] < |lines|)
            && (forall j, k :: 0 <= j < k < |idx| ==> idx[j] < idx[k])
    decreases |lines|
  {
    if lines != [] {
      MatchedLinesIncrease(lines[..|lines| - 1]);
    }
  }

  /** A line index is matched exactly when one of the patterns matches that line. */
  lemma {:induction false} MatchedLinesExact(lines: seq<string>)
    ensures forall k :: 0 <= k < |lines| ==> (LineMatch(lines[k]).Some? <==> k in MatchedLines(lines))
    decreases |lines|
  {
    if lines != [] {
      var n := |lines| - 1;
      var init := lines[..n];
      MatchedLinesExact(init);
      MatchedLinesIncrease(init);
      assert forall k :: 0 <= k < n ==> lines[k] == init[k];
    }
  }

  /** The `j`-th diagnostic is the one the `j`-th matched line yields. */
  lemma {:induction false} DiagnosticsAtMatchedLines(lines: seq<string>, doc: Document)
    requires ReportInDocument(lines, doc)
    ensures var ds := Diagnostics(lines, doc);
            var idx := MatchedLines(lines);
            && |ds| == |idx|
            && (forall j :: 0 <= j < |idx| ==> idx[j] < |lines| && LineDiagnostic(lines[idx[j]], doc) == Some(ds[j]))
    decreases |lines|
  {
    MatchedLinesIncrease(lines);
    if lines != [] {
      var n := |lines| - 1;
      var init := lines[..n];
      assert ReportInDocument(init, doc) by {
        forall i | 0 <= i < |init| ensures InDocument(init[i], doc) {
          assert init[i] == lines[i];
        }
      }
      DiagnosticsAtMatchedLines(init, doc);
      MatchedLinesIncrease(init);
      var idx0 := MatchedLines(init);
      var ds0 := Diagnostics(init, doc);
      var idx := MatchedLines(lines);
      var ds := Diagnostics(lines, doc);
      if LineMatch(lines[n]).Some? {
        assert idx == idx0 + [n];
        assert ds == ds0 + [LineDiagnostic(lines[n], doc).value];
      } else {
        assert idx == idx0 && ds == ds0;
      }
      forall j | 0 <= j < |idx| ensures idx[j] < |lines| && LineDiagnostic(lines[idx[j]], doc) == Some(ds[j]) {
        if j < |idx0| {
          assert idx[j] == idx0[j] && ds[j] == ds0[j];
          assert lines[idx0[j]] == init[idx0[j]];
        }
      }
    }
  }

  /**
   * `parseLintErrors` yields one diagnostic per matched line and none for
   * any other line, in the order of the lines; so there are never more
   * diagnostics than lines.
   */
  lemma DiagnosticsFollowLines(lines: seq<string>, doc: Document)
    requires ReportInDocument(lines, doc)
    ensures var ds := Diagnostics(lines, doc);
            var idx := MatchedLines(lines);
            && |ds| == |idx| <= |lines|
            && (forall j :: 0 <= j < |idx| ==> idx[j] < |lines| && LineDiagnostic(lines[idx[j]], doc) == Some(ds[j]))
            && (forall j, k :: 0 <= j < k < |idx| ==> idx[j] < idx[k])
            && (forall k :: 0 <= k < |lines| ==> (LineMatch(lines[k]).Some? <==> k in idx))
  {
    MatchedLinesIncrease(lines);
    MatchedLinesExact(lines);
    DiagnosticsAtMatchedLines(lines, doc);
  }

  /** A line without `:`, such as a blank or indentation-only line, yields nothing. */
  lemma LineWithoutColon(line: string, doc: Document)
    requires ':' !in line
    ensures InDocument(line, doc) && LineDiagnostic(line, doc) == None
  {
    forall pat, p: nat, g ensures !MatchesAt(pat, line, p, g) {
    }
    MatchNone(RulePattern, line);
    MatchNone(SyntaxErrorPattern, line);
  }

  /** The diagnostic of a matched line is the one its captured fields give. */
  lemma DiagnosticOfMatch(line: string, doc: Document, f: Fields)
    requires LineMatch(line) == Some(f)
    requires 1 <= ParseDecimal(f.lineNum) <= |doc|
    ensures InDocument(line, doc) && LineDiagnostic(line, doc) == Some(FieldsDiagnostic(f, doc))
  {
  }

  /** A line the rule pattern matches is matched by its fields, whatever the fallback would find. */
  lemma RuleMatchIsLineMatch(line: string, f: Fields)
    requires Match(RulePattern, line) == Some(f)
    ensures LineMatch(line) == Some(f)
  {
  }

  /** A line the rule pattern misses is matched as the fallback pattern matches it. */
  lemma FallbackIsLineMatch(line: string, f: Fields)
    requires Match(RulePattern, line) == None && Match(SyntaxErrorPattern, line) == Some(f)
    ensures LineMatch(line) == Some(f)
  {
  }

  /** A syntax error is reported with severity "info". */
  lemma SyntaxErrorIsInfo()
    ensures MapSeverity(SyntaxErrorCode) == "info"
  {
    assert SyntaxErrorCode[0] == 'S';
  }

  /**
   * A rule line `pre:L:C: CODE message`, with no `:` followed by a digit
   * in `pre`, yields the range from column `C`
   * of document line `L` to the end of that line, the severity of `CODE`
   * and the message as written.
   */
  lemma RuleLineDiagnostic(pre: string, lineNum: string, colNum: string, sp1: char, code: string, sp2: char, message: string, doc: Document)
    requires NoColonDigit(pre)
    requires Digits(lineNum) && Digits(colNum) && Word(code) && MessageText(message)
    requires IsSpace(sp1) && IsSpace(sp2)
    requires 1 <= ParseDecimal(lineNum) <= |doc|
    ensures var line := RuleLine(pre, lineNum, colNum, sp1, code, sp2, message);
            && InDocument(line, doc)
            && LineDiagnostic(line, doc) == Some(FieldsDiagnostic(Fields(lineNum, colNum, code, message), doc))
  {
    var line := RuleLine(pre, lineNum, colNum, sp1, code, sp2, message);
    var f := Fields(lineNum, colNum, code, message);
    RuleLineMatches(pre, lineNum, colNum, sp1, code, sp2, message);
    RuleMatchIsLineMatch(line, f);
    DiagnosticOfMatch(line, doc, f);
  }

  /**
   * A syntax-error line `pre:L:C: SyntaxError: message`, with no `:`
   * followed by a digit in `pre` or `message`, is taken by the fallback
   * pattern: its diagnostic has severity "info" and the message
   * after `SyntaxError:`.
   */
  lemma SyntaxErrorLineDiagnostic(pre: string, lineNum: string, colNum: string, sp1: char, sp2: char, message: string, doc: Document)
    requires NoColonDigit(pre) && NoColonDigit(message)
    requires Digits(lineNum) && Digits(colNum) && MessageText(message)
    requires IsSpace(sp1) && IsSpace(sp2)
    requires 1 <= ParseDecimal(lineNum) <= |doc|
    ensures var line := SyntaxErrorLine(pre, lineNum, colNum, sp1, sp2, message);
            && InDocument(line, doc)
            && LineDiagnostic(line, doc) == Some(FieldsDiagnostic(Fields(lineNum, colNum, SyntaxErrorCode, message), doc))
            && LineDiagnostic(line, doc).value.severity == "info"
  {
    var line := SyntaxErrorLine(pre, lineNum, colNum, sp1, sp2, message);
    var f := Fields(lineNum, colNum, SyntaxErrorCode, message);
    SyntaxErrorLineIsNoRuleLine(pre, lineNum, colNum, sp1, sp2, message);
    SyntaxErrorLineMatches(pre, lineNum, colNum, sp1, sp2, message);
    FallbackIsLineMatch(line, f);
    DiagnosticOfMatch(line, doc, f);
    SyntaxErrorIsInfo();
  }
}
