# Playground lint parser and display helper, in Dafny

This project models two small pieces of the stormvogel online playground and
proves properties of them.

- **The lint-report parser of the editor** (`frontend/src/utils.js`).
  `mapSeverity` classifies a linter rule code as an error, a warning or
  information. `parseLintErrors` splits the linter's text report into lines.
  It recognises each line with one of two regular expressions: a rule line
  `…:L:C: CODE message`, or, as a fallback, a syntax-error line
  `…:L:C: SyntaxError: message`. It turns each recognised line into an
  editor diagnostic. The diagnostic's range runs from column `C` of document
  line `L` to the end of that line. It carries the code's severity and the
  message.
- **The playground's `show` helper** (`backend/resources/playground.py`).
  Its three branches are tried in order:
  - A stormvogel Model prints its generated HTML as it is.
  - A `str` that names an existing file prints an image page when the
    file's extension, lower-cased, is `.png`, `.gif`, `.jpg` or `.jpeg`, and
    nothing otherwise.
  - An object with a callable `figure` attribute prints a PNG image page.
    This works only when that attribute itself has a working `savefig`,
    because line 29 calls `savefig` on the attribute, not on its result.
    Otherwise the branch raises before it prints: `show(plt)` is an
    AttributeError.

  An image page is an `<img>` element whose source is a base64 `data:` URI
  (section 3 of RFC 2397). `add_doctype` wraps it in
  `<!DOCTYPE html>\n<html>…</html>`: a page that opens with the doctype
  and whose only `</html>`, in any letter case, is its last seven
  characters.

Files:

- `wrappers.dfy`: the `Option` type.
- `lint_pattern.dfy` (module `LintPattern`): the two regular expressions.
  Each is modelled twice:
  - an explicit scanner (`Match`) that tries every start position from the
    left;
  - a declarative description (`MatchesAt`, `LeftmostAt`) of what
    JavaScript's `String.prototype.match` reports.

  The lemmas prove that the two agree, and they work out what each kind of
  report line matches.
- `lint_utils.dfy` (module `LintUtils`):
  - `MapSeverity`;
  - `Split` and `Join` for `split('\n')`;
  - `ParseLintErrors`, the loop, proved against the specification function
    `Diagnostics`;
  - lemmas on the order and the content of the diagnostics.
- `lint_examples.dfy` (module `LintExamples`): the report and the document
  of the parser's unit test, and the test's `mapSeverity` cases.
- `playground.dfy` (module `Playground`):
  - `AddDoctype` and its inverse;
  - the extension filter and the MIME choice;
  - the data URI and the image element, each with a reader that inverts it;
  - `Show`, with its branch order and output lemmas.

Behaviour of the source worth knowing:

- The unit test expects `mapSeverity('E402')` to be `"warning"`. The code
  returns `"error"` for every code that starts with `E`. The model follows
  the code, and `LintExamples.MapSeverityExamples` states `"error"`.
- A Model's generated HTML is printed without `add_doctype`
  (`backend/resources/playground.py:18`). So only the image pages are one
  `<!DOCTYPE html>…</html>` block (`Playground.ShowImagePageIsOneBlock`).
- A `str` that names an existing file with a non-image extension prints
  nothing. Its `figure` branch is never tried, because the `elif` chain has
  already chosen the file branch. `Playground.NonImageFileShadowsFigure`
  states this.

## Model

| member | source | states |
|---|---|---|
| LintUtils.MapSeverity | frontend/src/utils.js:4-12 | the result is one of the three severities; it is "error" exactly when the code starts with `E`, "warning" exactly when it starts with `W` but not `E`, and "info" exactly when it starts with neither |
| LintUtils.MapSeverityByFirstChar | frontend/src/utils.js:4-12 | the severity depends only on the first character of the code; an empty code is "info" |
| LintExamples.MapSeverityExamples | frontend/tests-vitest/page.test.js:152-159 | the test's codes map to error (`E402`, `E001`), warning (`W001`) and info (`I001`, `unknown`) |
| LintUtils.Split | frontend/src/utils.js:17 | `split('\n')` yields at least one piece, and no piece holds a newline |
| LintUtils.JoinSplit | frontend/src/utils.js:17 | joining the pieces with the separator gives back the report |
| LintUtils.SplitJoin | frontend/src/utils.js:17 | pieces free of the separator, joined and split again, come back unchanged |
| LintPattern.RunEnd | frontend/src/utils.js:20 | the scan of a `\d+`, `\w+` or `.+` run ends at the first character outside the class (or at the end), and every character before it is in the class |
| LintPattern.PositionSound | frontend/src/utils.js:20 | what the scanner reads as `:(\d+):(\d+):\s` at a position is there: colons, two non-empty digit runs, a whitespace character |
| LintPattern.PositionComplete | frontend/src/utils.js:20 | every `:(\d+):(\d+):\s` at a position is read by the scanner with exactly those digit groups |
| LintPattern.TailSound | frontend/src/utils.js:20-24 | what the scanner reads as the tail of either pattern (`(\w+)\s(.+)` or `(SyntaxError):\s(.+)`) is there, and the message runs to the end of the line |
| LintPattern.TailComplete | frontend/src/utils.js:20-24 | every such tail is read by the scanner with exactly that code and message |
| LintPattern.MessageComplete | frontend/src/utils.js:20-24 | the greedy `(.+)` captures the whole non-empty run up to the end of the string or to a line terminator |
| LintPattern.MatchAtSound | frontend/src/utils.js:20-24 | whatever the scanner finds at a position is a match the regular expression reports there |
| LintPattern.MatchAtComplete | frontend/src/utils.js:20-24 | every match the regular expression reports at a position is found by the scanner, with the same groups |
| LintPattern.MatchAtIff | frontend/src/utils.js:20-24 | the scanner finds `f` at `p` if and only if the regular expression matches at `p` with groups `f` |
| LintPattern.FirstFromSound | frontend/src/utils.js:27-29 | a search over start positions yields an attempt that succeeded after every earlier attempt failed |
| LintPattern.FirstFromFinds | frontend/src/utils.js:27-29 | the search yields the first attempt that succeeds |
| LintPattern.FirstFromNone | frontend/src/utils.js:27-29 | a search that yields nothing had every attempt fail |
| LintPattern.ScannedIsLeftmost | frontend/src/utils.js:27-29 | the scanner's "found here and nowhere earlier" is the same as the leftmost match of the regular expression |
| LintPattern.MatchIsLeftmost | frontend/src/utils.js:27-29 | `line.match(regex)` yields `f` if and only if `f` is the leftmost match |
| LintPattern.MatchNone | frontend/src/utils.js:27-30 | `line.match(regex)` yields nothing if and only if the regular expression matches at no position |
| LintPattern.MatchAt | frontend/src/utils.js:20-24 | the regular expression tried at one start position; `MatchAtIff` proves it finds exactly the matches `MatchesAt` describes there |
| LintPattern.Match | frontend/src/utils.js:27-29 | `line.match(regex)`; `MatchIsLeftmost` and `MatchNone` prove it yields the leftmost match, or nothing exactly when no position matches |
| LintPattern.MatchCaptures | frontend/src/utils.js:20-32 | every match captures two non-empty digit runs, a non-empty message without line terminators, and a word code (rule) or `SyntaxError` (fallback) |
| LintPattern.NoMatchWithoutColonDigit | frontend/src/utils.js:20-24 | no match starts where the line does not hold `:` followed by a digit |
| LintPattern.MatchAfterColonDigitFreePrefix | frontend/src/utils.js:27-29 | a match that starts after a prefix in which no `:` is followed by a digit is the leftmost one |
| LintPattern.RuleLineMatches | frontend/src/utils.js:19-27 | a rule line `pre:L:C: CODE message` (no `:` in `pre` followed by a digit) matches the rule pattern with groups `L`, `C`, `CODE`, `message` |
| LintPattern.SyntaxErrorLineIsNoRuleLine | frontend/src/utils.js:20-29 | a syntax-error line whose prefix and message hold no `:` followed by a digit (so messages such as `Expected ':', found newline` are included) never matches the rule pattern: `\w+` takes `SyntaxError` and is followed by `:`, not by whitespace, so the fallback pattern is consulted |
| LintPattern.SyntaxErrorLineMatches | frontend/src/utils.js:23-29 | a syntax-error line whose prefix holds no `:` followed by a digit matches the fallback pattern with code `SyntaxError` and the message after it |
| LintUtils.LineMatch | frontend/src/utils.js:27-30 | a line's match (rule pattern first, then the fallback) has digit groups and a message of the captured shape |
| LintUtils.RuleMatchIsLineMatch | frontend/src/utils.js:27-30 | when the rule pattern matches, its groups are used and the fallback is never consulted |
| LintUtils.FallbackIsLineMatch | frontend/src/utils.js:27-30 | when the rule pattern misses, the fallback's groups are used |
| LintUtils.FieldsDiagnostic | frontend/src/utils.js:33-45 | a diagnostic runs from the line's start plus the column minus one to the line's end, with the code's severity and the captured message |
| LintUtils.ParseDecimal | frontend/src/utils.js:33-34 | `parseInt` on a run of decimal digits; `ParseDecimalOfDecimalString` proves it the inverse of writing a number in decimal |
| LintUtils.DecimalString | frontend/src/utils.js:33-34 | the decimal writing of a number is a non-empty run of digits without a leading zero |
| LintUtils.ParseDecimalOfDecimalString | frontend/src/utils.js:33-34 | `parseInt` reads back every number written in decimal |
| LintUtils.LineDiagnostic | frontend/src/utils.js:31-46 | a line yields a diagnostic exactly when one of the patterns matches it; the diagnostic has one of the three severities and a non-empty single-line message |
| LintUtils.DiagnosticOfMatch | frontend/src/utils.js:31-46 | a matched line whose line number lies inside the document yields the diagnostic of its captured groups |
| LintUtils.LineWithoutColon | frontend/src/utils.js:26-31 | a line without `:` (blank, indentation only) yields no diagnostic |
| LintUtils.SyntaxErrorIsInfo | frontend/src/utils.js:4-12 | the code `SyntaxError` has severity "info" |
| LintUtils.RuleLineDiagnostic | frontend/src/utils.js:20-46 | a rule line whose prefix holds no `:` followed by a digit yields the range from column `C` of line `L` to that line's end, the severity of `CODE`, and the message |
| LintUtils.SyntaxErrorLineDiagnostic | frontend/src/utils.js:24-46 | a syntax-error line whose prefix and message hold no `:` followed by a digit yields its range with severity "info" and the message after `SyntaxError:` |
| LintExamples.MissingColonLineDiagnostic | frontend/src/utils.js:24-46 | the report `…:3:1: SyntaxError: Expected ':', found newline` yields an "info" diagnostic over document line 3 with that message |
| LintUtils.DiagnosticsStep | frontend/src/utils.js:26-47 | one more report line appends its diagnostic, if any, after the diagnostics of the lines before it |
| LintUtils.DiagnosticsSnoc | frontend/src/utils.js:26-47 | appending a line to a report appends its diagnostic, if any |
| LintUtils.Diagnostics | frontend/src/utils.js:26-48 | the diagnostics of a report's lines, the reference for the loop; `DiagnosticsAtMatchedLines` and `DiagnosticsFollowLines` prove one diagnostic per matched line, in line order |
| LintUtils.ParseLintErrors | frontend/src/utils.js:15-49 | the method's loop returns exactly the diagnostics of the report's lines, in order |
| LintUtils.MatchedLinesIncrease | frontend/src/utils.js:26-31 | the indices of the matched lines are line indices in strictly increasing order |
| LintUtils.MatchedLinesExact | frontend/src/utils.js:26-31 | a line index is among the matched ones if and only if one of the patterns matches that line |
| LintUtils.DiagnosticsAtMatchedLines | frontend/src/utils.js:26-47 | there are as many diagnostics as matched lines, and the `j`-th diagnostic is the one the `j`-th matched line yields |
| LintUtils.DiagnosticsFollowLines | frontend/src/utils.js:26-48 | one diagnostic per matched line and none for other lines, in line order, never more diagnostics than lines |
| LintExamples.ReportLines | frontend/tests-vitest/page.test.js:162-166 | the test's report splits into a blank line, the three findings and a line of indentation |
| LintExamples.ErrorLineDiagnostic | frontend/tests-vitest/page.test.js:163-186 | the test's first finding yields `{from: 0, to: 20, severity: 'error'}` with its message |
| LintExamples.WarningLineDiagnostic | frontend/tests-vitest/page.test.js:164-187 | the test's second finding yields `{from: 24, to: 40, severity: 'warning'}` with its message |
| LintExamples.InfoLineDiagnostic | frontend/tests-vitest/page.test.js:165-188 | the test's third finding yields `{from: 49, to: 60, severity: 'info'}` with its message |
| LintExamples.ReportDiagnostics | frontend/tests-vitest/page.test.js:161-190 | the test's report lines yield exactly the three expected diagnostics, in order |
| LintExamples.ParseTestExample | frontend/tests-vitest/page.test.js:161-190 | `parseLintErrors` on the test's report and document gives the expected three diagnostics |
| Playground.AddDoctype | backend/resources/playground.py:12-14 | the page starts with `<!DOCTYPE html>\n<html>`, ends with `</html>`, and holds the fragment unchanged between them |
| Playground.StripAddDoctype | backend/resources/playground.py:12-14 | stripping the wrapper from a wrapped fragment gives the fragment back |
| Playground.AddStripDoctype | backend/resources/playground.py:12-14 | every page the stripper accepts is the wrapping of what it strips |
| Playground.AddDoctypeIsOneBlock | backend/resources/playground.py:12-14 | for a fragment without `</html>` in any letter case, the page opens with the doctype and its only `</html>` is its last seven characters |
| Playground.RFind | backend/resources/playground.py:20 | the last index of a character, or -1; no later position holds it |
| Playground.Extension | backend/resources/playground.py:20 | `os.path.splitext(path)[1]` is a suffix of the path, empty or starting with its only `.`, without `/`; `ExtensionOfName` and `ExtensionWithoutStem` say which it is |
| Playground.ExtensionOfName | backend/resources/playground.py:20 | a last path component made of a stem holding a non-dot character and `.ext` (no further `.` or `/`) has the extension `.ext` |
| Playground.ExtensionWithoutStem | backend/resources/playground.py:20 | a last path component in which no dot follows a non-dot character (`file`, `.bashrc`, `..png`) has no extension |
| Playground.UpperCasePngExample | backend/resources/playground.py:20-24 | `dir/cat.PNG` has extension `.PNG` and is shown as image/png |
| Playground.JpegExample | backend/resources/playground.py:20-24 | `photo.jpeg` has extension `.jpeg` and is shown as image/jpeg |
| Playground.HiddenFileExample | backend/resources/playground.py:20-21 | `.bashrc` has no extension and is not shown |
| Playground.DottedDirectoryExample | backend/resources/playground.py:20-21 | `a.d/file` has no extension and is not shown |
| Playground.Lower | backend/resources/playground.py:20 | `.lower()` keeps the length and lower-cases each ASCII letter, leaving every other character alone |
| Playground.ImageMime | backend/resources/playground.py:21-24 | an extension gets a MIME type exactly when it is one of the four image extensions: `.png` gets image/png, `.gif` gets image/gif, `.jpg` and `.jpeg` get image/jpeg |
| Playground.PathImageMime | backend/resources/playground.py:20-24 | the file at a path is shown exactly when its lower-cased extension is one of the four image extensions, and then with one of the three image media types |
| Playground.ImageCheckIgnoresCase | backend/resources/playground.py:20-24 | two paths that differ only in letter case get the same MIME type, or both none |
| Playground.ParseDataUriOfDataUri | backend/resources/playground.py:25 | a data URI reads back to its media type and payload when the media type has no comma |
| Playground.DataUriOfParseDataUri | backend/resources/playground.py:25 | every URI that reads back is the data URI of what it reads back to |
| Playground.DataUri | backend/resources/playground.py:25 | the base64 `data:` URI of a media type and payload; `ParseDataUriOfDataUri` and `DataUriOfParseDataUri` prove that `ParseDataUri` inverts it |
| Playground.ImageElement | backend/resources/playground.py:25 | `<img src="…" />` around the data URI; `ImageSourceOfImageElement` proves its source reads back, `ImageElementHasNoClosingMarker` that it holds no `</html>` |
| Playground.ImageSourceOfImageElement | backend/resources/playground.py:25 | the `src` attribute of an image element is its data URI |
| Playground.ReadImagePageOfImagePage | backend/resources/playground.py:25-26 | a printed image page reads back to the media type and the payload it was made from |
| Playground.ImageMimeIsPlain | backend/resources/playground.py:24 | the three media types hold neither `,` nor `<` |
| Playground.ImageElementHasNoClosingMarker | backend/resources/playground.py:25 | an image element whose media type and payload hold no `<` contains no `</html>` in any letter case |
| Playground.ShowPrintsIff | backend/resources/playground.py:16-36 | `show` prints exactly when the argument is a Model, or names a file with an image extension, or names no file and has a callable `figure` whose `savefig` writes a PNG |
| Playground.ShowModelFirst | backend/resources/playground.py:16-18 | a Model prints its generated HTML, without a doctype, whatever else the argument is |
| Playground.NonImageFileShadowsFigure | backend/resources/playground.py:19-27 | a `str` naming a non-image file prints nothing, even when it also has a callable `figure` |
| Playground.ShowImagePageReadsBack | backend/resources/playground.py:19-36 | every non-Model output reads back to an image media type and payload: the file's type and contents, or image/png and the figure's PNG |
| Playground.ShowImagePageIsOneBlock | backend/resources/playground.py:19-36 | when the payloads are base64, every non-Model output opens with the doctype and its only `</html>` is its last seven characters |
| Playground.Show | backend/resources/playground.py:16-36 | the `if`/`elif` chain of `show`; `ShowPrintsIff`, `ShowModelFirst`, `NonImageFileShadowsFigure`, `ShowImagePageReadsBack` and `ShowImagePageIsOneBlock` prove which branch prints and what |

## Left out

- `backend/sandbox.py`, `backend/app.py` and `backend/timeout.py` are not part of this model. They cover the sandbox lifecycle, the HTTP routes and the execution deadline.
- `ParseLintErrors` requires every matched line number to name a line of the document (`ReportInDocument`). In the source, `doc.line` of an out-of-range line throws a `RangeError` from the editor library, which is not part of this model.
- `ParseLintErrors` leaves out the `console.log` of each match (utils.js:35), because it is output only.
- `SyntaxErrorLineIsNoRuleLine`, `SyntaxErrorLineMatches` and `RuleLineMatches` do not describe a line whose prefix or message holds a `:` followed by a digit (such as a message quoting `:12:3: `). The regular expression can then match elsewhere. Such lines are described only by `Match` and `MatchIsLeftmost`.
- `ParseDecimal` is `parseInt` on a run of digits. It is exact, whereas JavaScript numbers lose precision above 2^53.
- Strings are sequences of characters, not of UTF-16 code units. Positions therefore agree with the source only for text in the Basic Multilingual Plane.
- `Show` takes the effects of its branches as inputs:
  - the Model's `generate_html()` text;
  - `os.path.isfile` and the base64 encoding of each file's bytes, as a map from path to encoded contents;
  - the base64 encoding of the PNG that `savefig` writes.

  `print`, `open`, `base64.b64encode`, matplotlib and `plt.close` are left out.
- `Show`'s figure branch takes as input whether the argument's `figure` attribute is callable and has a working `savefig`, and what PNG that call writes. Line 29 calls `savefig` on `something.figure` itself. The model does not decide for any given object whether that call succeeds. A failed call prints nothing, as when `Value.figure` is `None`.
- `Lower` lower-cases ASCII letters only, where Python's `str.lower` covers all of Unicode. No image extension has a non-ASCII letter.
- `Extension` follows POSIX `splitext` (`/` separator, leading dots belong to the name). It does not follow the Windows variant with `\` and drive letters.
- The frontend's editor wiring, examples and other UI files are not part of this model.
