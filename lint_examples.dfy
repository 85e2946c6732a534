/**
 * The report and the editor document of the parser's unit test
 * (frontend/tests-vitest/page.test.js), with the diagnostics it expects.
 */
module LintExamples {
  import opened Wrappers
  import opened LintPattern
  import opened LintUtils

  /** The indentation and file path that precede each finding in the test's report. */
  const Path: string := "      /path/to/file.py"

  const ErrorLine: string := RuleLine(Path, "1", "1", ' ', "E001", ' ', "Example error message")
  const WarningLine: string := RuleLine(Path, "2", "5", ' ', "W001", ' ', "Example warning message")
  const InfoLine: string := RuleLine(Path, "3", "10", ' ', "I001", ' ', "Example info message")

  /** The lines of the test's report: a blank first line, three findings, and trailing indentation. */
  const ReportLineList: seq<string> := ["", ErrorLine, WarningLine, InfoLine, "    "]

  /** The report of the test, its lines joined by newlines. */
  const Report: string := Join(ReportLineList, '\n')

  /** Three lines of 20 characters each, as the test's `doc.line` describes them. */
  const Doc: Document := [LineRange(0, 20), LineRange(20, 40), LineRange(40, 60)]

  lemma NoNewlineInRuleLine(pre: string, lineNum: string, colNum: string, code: string, message: string)
    requires '\n' !in pre && '\n' !in message
    requires Digits(lineNum) && Digits(colNum) && Word(code)
    ensures '\n' !in RuleLine(pre, lineNum, colNum, ' ', code, ' ', message)
  {
  }

  lemma ReportLines()
    ensures Split(Report, '\n') == ReportLineList
  {
    assert '\n' !in Path;
    NoNewlineInRuleLine(Path, "1", "1", "E001", "Example error message");
    NoNewlineInRuleLine(Path, "2", "5", "W001", "Example warning message");
    NoNewlineInRuleLine(Path, "3", "10", "I001", "Example info message");
    SplitJoin(ReportLineList, '\n');
  }

  lemma ErrorLineDiagnostic()
    ensures InDocument(ErrorLine, Doc)
    ensures LineDiagnostic(ErrorLine, Doc) == Some(Diagnostic(0, 20, "error", "Example error message"))
  {
    assert ':' !in Path;
    RuleLineDiagnostic(Path, "1", "1", ' ', "E001", ' ', "Example error message", Doc);
  }

  lemma WarningLineDiagnostic()
    ensures InDocument(WarningLine, Doc)
    ensures LineDiagnostic(WarningLine, Doc) == Some(Diagnostic(24, 40, "warning", "Example warning message"))
  {
    assert ':' !in Path;
    assert ParseDecimal("2") == 2 && ParseDecimal("5") == 5;
    assert MapSeverity("W001") == "warning" by { assert "W001"[0] == 'W'; }
    RuleLineDiagnostic(Path, "2", "5", ' ', "W001", ' ', "Example warning message", Doc);
  }

  lemma InfoLineDiagnostic()
    ensures InDocument(InfoLine, Doc)
    ensures LineDiagnostic(InfoLine, Doc) == Some(Diagnostic(49, 60, "info", "Example info message"))
  {
    assert ':' !in Path;
    assert ParseDecimal("3") == 3 && ParseDecimal("10") == 10;
    assert MapSeverity("I001") == "info" by { assert "I001"[0] == 'I'; }
    RuleLineDiagnostic(Path, "3", "10", ' ', "I001", ' ', "Example info message", Doc);
  }

  /** The linter's report of a missing `:`; its message holds a `:` of its own. */
  const MissingColonMessage: string := "Expected ':', found newline"
  const MissingColonLine: string := SyntaxErrorLine(Path, "3", "1", ' ', ' ', MissingColonMessage)

  /** The one `:` of the message is followed by a quote. */
  lemma MissingColonMessageShape()
    ensures NoColonDigit(MissingColonMessage) && MessageText(MissingColonMessage)
  {
    forall k | 0 <= k < |MissingColonMessage| - 1 && MissingColonMessage[k] == ':'
      ensures !IsDigit(MissingColonMessage[k + 1])
    {
      assert k == 10;
    }
  }

  /**
   * The `:` inside the message does not stop the fallback pattern: the line
   * yields an information diagnostic over all of document line 3.
   */
  lemma MissingColonLineDiagnostic()
    ensures InDocument(MissingColonLine, Doc)
    ensures LineDiagnostic(MissingColonLine, Doc) == Some(Diagnostic(40, 60, "info", MissingColonMessage))
  {
    assert ':' !in Path;
    MissingColonMessageShape();
    assert ParseDecimal("3") == 3 && ParseDecimal("1") == 1;
    SyntaxErrorLineDiagnostic(Path, "3", "1", ' ', ' ', MissingColonMessage, Doc);
  }

  /** The diagnostics of the test's report lines, one line at a time. */
  lemma {:induction false} ReportDiagnostics()
    ensures ReportInDocument(ReportLineList, Doc)
    ensures Diagnostics(ReportLineList, Doc) == [
              Diagnostic(0, 20, "error", "Example error message"),
              Diagnostic(24, 40, "warning", "Example warning message"),
              Diagnostic(49, 60, "info", "Example info message")]
  {
    var d1 := Diagnostic(0, 20, "error", "Example error message");
    var d2 := Diagnostic(24, 40, "warning", "Example warning message");
    var d3 := Diagnostic(49, 60, "info", "Example info message");
    var l0: seq<string> := [];
    assert Diagnostics(l0, Doc) == [];
    LineWithoutColon("", Doc);
    DiagnosticsSnoc(l0, "", Doc);
    var l1 := l0 + [""];
    ErrorLineDiagnostic();
    DiagnosticsSnoc(l1, ErrorLine, Doc);
    var l2 := l1 + [ErrorLine];
    WarningLineDiagnostic();
    DiagnosticsSnoc(l2, WarningLine, Doc);
    var l3 := l2 + [WarningLine];
    InfoLineDiagnostic();
    DiagnosticsSnoc(l3, InfoLine, Doc);
    var l4 := l3 + [InfoLine];
    LineWithoutColon("    ", Doc);
    DiagnosticsSnoc(l4, "    ", Doc);
    assert l4 + ["    "] == ReportLineList;
  }

  /** The expectation of the parser's unit test holds of the model. */
  lemma ParseTestExample()
    ensures var lines := Split(Report, '\n');
            && ReportInDocument(lines, Doc)
            && Diagnostics(lines, Doc) == [
                 Diagnostic(0, 20, "error", "Example error message"),
                 Diagnostic(24, 40, "warning", "Example warning message"),
                 Diagnostic(49, 60, "info", "Example info message")]
  {
    ReportLines();
    ReportDiagnostics();
  }

  /**
   * The severities of the test's `mapSeverity` cases. `E402` starts with `E`
   * and so maps to an error, as for `E001`; the test's own expectation for it
   * is a warning, which the mapping does not give.
   */
  lemma MapSeverityExamples()
    ensures MapSeverity("E402") == "error" && MapSeverity("E001") == "error"
    ensures MapSeverity("W001") == "warning"
    ensures MapSeverity("I001") == "info" && MapSeverity("unknown") == "info"
  {
    assert "E402"[0] == 'E' && "E001"[0] == 'E';
    assert "W001"[0] == 'W';
    assert "I001"[0] == 'I' && "unknown"[0] == 'u';
  }
}
