# bearcnc documentation-driven rule tests, in Dafny

The ESLint configuration package `eslint-config-bearcnc-base` tests its rules
from its own documentation. Every rule has a bullet in a markdown document:

- its first line names the rule as ``eslint: [`rule`]``;
- an `**Availability:**` line lists the profiles (`es5`, `es6`, …) that enable it;
- `Good:` and `Bad:` blocks each carry a hidden comment line
  `[//]: # (expectedErrors: N, eslint: '…')` and a fenced `js` snippet.

`getTestCasesData` turns such a bullet into a list of test cases.
`Linter.checkRule` then checks the cases:

- the profile under test must be available for the rule;
- every case's kind must agree with its expected error count;
- ESLint must report exactly the expected number of errors for each case, in order.

This project models that core as pure functions over the document's text and proves what they compute.

| module | file | models |
|---|---|---|
| `Results` | results.dfy | `Option`/`Result` with `:-` propagation; the source's `throw`s become `Err` values |
| `Text` | text.dfy | the JavaScript string built-ins the code relies on: `trim`, the class `\s`, `includes`, `indexOf`, `split`, `join` |
| `Decimal` | decimal.dfy | `parseInt(digits, 10)` and the template-literal rendering of a case number |
| `Dedent` | dedent.dfy | `dedent` |
| `Markers` | markers.dfy | the global `Good:`/`Bad:` regular expression run with `exec` in a loop |
| `Directive` | directive.dfy | the two regular expressions on the comment line: `expectedErrors:\s*(\d+)` and `eslint:\s*'([^']+)'` |
| `Availability` | availability.dfy | finding and splitting the availability line |
| `Markdown` | markdown.dfy | `getTestCasesData`: the staged extraction and its six errors |
| `Linter` | linter.dfy | the assertions of `checkRule`, with ESLint as a parameter `lint: string -> nat` |

Three behaviours of the code follow from its text and are modelled as written.

- **Swallowed markers.** The marker expression is
  `/\n\s*(Good:|Bad:)\s*([\s\S]*?)(?=\n\s*(Good:|Bad:)|$)/g`.
  - Its greedy `\s*` after the marker word also eats newlines.
  - So when a block is empty up to the next marker, that next marker is swallowed and becomes the block's body.
  - `Markers` therefore scans positions, not lines.
  - `Markers.MatchesCover` states where every marker ends up: each one is either where a match starts or inside the prefix of the match that swallowed it.
- **The snippet.** It is literally `code.split('```js')[1].split('```')[0]`.
- **An unclosed backtick.** A trailing unclosed backtick on the availability line still yields a profile, which runs to the note or the end of the line (`Availability.AvailabilityCount`).

Three further points of the code bear on what a passing check means.

- **Repeated sections.** The first bullet whose first line carries the rule's tag is used; later bullets carrying the same tag are ignored (markdown.js:21-25, `Markdown.RuleSectionFirst`).
- **Errors only.** Each case compares only ESLint's `errorCount` with its expected count; warnings are not counted (linter.js:40-42).
- **No rule attribution.** Which rule reported each error is not looked at; only the number of errors matters.

## Model

| member | source | states |
|---|---|---|
| `Dedent.ExpandTabsLength` | package/eslint-config-bearcnc-base/tests/utils/markdown.js:5 | expanding tabs adds exactly one character per tab |
| `Dedent.DropBlankRun` | package/eslint-config-bearcnc-base/tests/utils/markdown.js:7-8 | the lines kept after trimming blank lines at both ends form one contiguous run of the original lines |
| `Dedent.DropBlankOutside` | package/eslint-config-bearcnc-base/tests/utils/markdown.js:7-8 | every line dropped before or after the kept run is whitespace only |
| `Dedent.KeptInputLines` | package/eslint-config-bearcnc-base/tests/utils/markdown.js:5-8 | the kept lines are the input's own lines, each with its tabs expanded, less the blank lines at both ends |
| `Dedent.KeptLinesNone` | package/eslint-config-bearcnc-base/tests/utils/markdown.js:5-8 | no line survives exactly when the whole input is whitespace |
| `Dedent.MinIndent` | package/eslint-config-bearcnc-base/tests/utils/markdown.js:10-11 | the result is at most the leading-space count of every non-blank line, is attained by one of them, and is 0 when there is none |
| `Dedent.DedentLines` | package/eslint-config-bearcnc-base/tests/utils/markdown.js:10-13 | each output line is its kept line less exactly the common indentation, so relative indentation is kept and blank lines stay blank |
| `Dedent.DedentText` | package/eslint-config-bearcnc-base/tests/utils/markdown.js:13 | the returned text splits on newlines back into exactly the dedented lines |
| `Dedent.DedentNoTab` | package/eslint-config-bearcnc-base/tests/utils/markdown.js:5-13 | the returned text holds no tab |
| `Dedent.DedentEnds` | package/eslint-config-bearcnc-base/tests/utils/markdown.js:7-8 | the output neither starts nor ends with a blank line |
| `Dedent.DedentEmpty` | package/eslint-config-bearcnc-base/tests/utils/markdown.js:4-14 | the output is empty exactly when the input is whitespace only |
| `Dedent.DedentZero` | package/eslint-config-bearcnc-base/tests/utils/markdown.js:10-13 | a non-empty output has a non-blank line starting in column zero |
| `Dedent.DedentIdempotent` | package/eslint-config-bearcnc-base/tests/utils/markdown.js:4-14 | dedenting twice equals dedenting once |
| `Text.Trim` | package/eslint-config-bearcnc-base/tests/utils/markdown.js:51 | the trimmed text is empty exactly for blank input, and otherwise starts and ends with a non-whitespace character |
| `Text.TrimInfix` | package/eslint-config-bearcnc-base/tests/utils/markdown.js:51 | the trimmed text occurs in the input with only whitespace before and after it |
| `Text.SplitJoin` | package/eslint-config-bearcnc-base/tests/utils/markdown.js:21 | joining the pieces of a split with its separator gives the text back |
| `Text.SplitPieces` | package/eslint-config-bearcnc-base/tests/utils/markdown.js:63-64 | a split has one piece, the whole text, exactly when the separator does not occur, and no piece holds the separator |
| `Markdown.RuleSection` | package/eslint-config-bearcnc-base/tests/utils/markdown.js:21-25 | there is no section exactly when no bullet chunk's first line carries the rule's tag; a found section is such a chunk |
| `Markdown.RuleSectionFirst` | package/eslint-config-bearcnc-base/tests/utils/markdown.js:22-25 | of several chunks carrying the tag, the first is chosen |
| `Markdown.GetRuleNotFound` | package/eslint-config-bearcnc-base/tests/utils/markdown.js:26-28 | extraction fails with rule-not-found exactly when no section is found, whatever the rest of the document holds |
| `Availability.AvailabilityLine` | package/eslint-config-bearcnc-base/tests/utils/markdown.js:32-33 | there is no availability line exactly when no line of the section contains the label; a found one contains it and is a line of the section |
| `Availability.AvailabilityLineFirst` | package/eslint-config-bearcnc-base/tests/utils/markdown.js:33 | of several labelled lines, the first is chosen |
| `Markdown.GetAvailabilityNotFound` | package/eslint-config-bearcnc-base/tests/utils/markdown.js:34-36 | extraction fails with availability-not-found exactly when the section is found but has no labelled line |
| `Availability.OddPieces` | package/eslint-config-bearcnc-base/tests/utils/markdown.js:40-42 | the result has half as many entries as the pieces, and entry `j` is piece `2j+1` |
| `Availability.AvailabilityTokens` | package/eslint-config-bearcnc-base/tests/utils/markdown.js:38-42 | no profile holds a backtick or an opening parenthesis |
| `Availability.AvailabilityCount` | package/eslint-config-bearcnc-base/tests/utils/markdown.js:38-42 | with `k` backticks before the first `(`, there are `(k+1)/2` profiles (rounded down) |
| `Availability.AvailabilityRoundTrip` | package/eslint-config-bearcnc-base/tests/utils/markdown.js:31-42 | a line with tick-free text around a backtick-quoted list of profiles, optionally followed by a parenthesised note, parses back to exactly that list |
| `Markers.NextMarker` | package/eslint-config-bearcnc-base/tests/utils/markdown.js:45 | the result is the first position at or after the start where a newline, optional whitespace and `Good:`/`Bad:` begin, or none if there is no such position |
| `Markers.MatchAtIsMatch` | package/eslint-config-bearcnc-base/tests/utils/markdown.js:45 | the match built at a marker has the shape the expression demands: newline, blank run, word, all the whitespace after it, and a body that runs to the next marker or the end and contains no marker |
| `Markers.MatchesWellFormed` | package/eslint-config-bearcnc-base/tests/utils/markdown.js:45-53 | every match the `exec` loop returns has that shape and lies at or after where the search began |
| `Markers.MatchesFirst` | package/eslint-config-bearcnc-base/tests/utils/markdown.js:48-53 | the loop finds nothing exactly when no marker starts in the text, and otherwise its first match is at the first marker |
| `Markers.MatchesLinked` | package/eslint-config-bearcnc-base/tests/utils/markdown.js:45-48 | each body ends exactly where the next match starts |
| `Markers.MatchesLast` | package/eslint-config-bearcnc-base/tests/utils/markdown.js:45 | the last body runs to the end of the section |
| `Markers.MatchesCover` | package/eslint-config-bearcnc-base/tests/utils/markdown.js:45-53 | every marker lies in the word-and-whitespace prefix of some match, never inside a body |
| `Markers.Sections` | package/eslint-config-bearcnc-base/tests/utils/markdown.js:49-52 | there is one block per match |
| `Markers.SectionKind` | package/eslint-config-bearcnc-base/tests/utils/markdown.js:50 | a block is good exactly when its match found `Good:`, and bad exactly when it found `Bad:` |
| `Markdown.GetNoTestCases` | package/eslint-config-bearcnc-base/tests/utils/markdown.js:54-56 | extraction fails with no-test-cases exactly when the section and its availability line are found but no marker starts in the section |
| `Decimal.ParseShow` | package/eslint-config-bearcnc-base/tests/utils/markdown.js:61 | reading a printed number back gives the number |
| `Decimal.ShowParse` | package/eslint-config-bearcnc-base/tests/utils/markdown.js:70 | printing a parsed numeral that has no leading zero gives the numeral back |
| `Markdown.CaseTitleInjective` | package/eslint-config-bearcnc-base/tests/utils/markdown.js:61 | different case numbers give different titles |
| `Markdown.CommentOutFound` | package/eslint-config-bearcnc-base/tests/utils/markdown.js:63-66 | a block has a comment line exactly when it contains `[//]: #` |
| `Markdown.CommentOutShape` | package/eslint-config-bearcnc-base/tests/utils/markdown.js:67 | the comment line is the text right after the first `[//]: #`; it holds no newline and no further `[//]: #`, and ends at a newline, at the next `[//]: #` or at the end of the block |
| `Directive.ExpectedNone` | package/eslint-config-bearcnc-base/tests/utils/markdown.js:68-73 | there is no expected count exactly when `expectedErrors:`, optional whitespace and a digit occur nowhere on the line |
| `Directive.ExpectedLeftmost` | package/eslint-config-bearcnc-base/tests/utils/markdown.js:68-70 | the count read is the value of the whole digit run after the leftmost such occurrence |
| `Directive.ExpectedRoundTrip` | package/eslint-config-bearcnc-base/tests/utils/markdown.js:68-70 | writing `expectedErrors:` with whitespace and a printed number, with no `ex` before it and no digit after it, reads back as that number |
| `Directive.ConfigNone` | package/eslint-config-bearcnc-base/tests/utils/markdown.js:76-80 | there is no directive exactly when `eslint:`, optional whitespace and a quoted non-empty text occur nowhere on the line |
| `Directive.ConfigLeftmost` | package/eslint-config-bearcnc-base/tests/utils/markdown.js:77-79 | the directive read is the quoted text after the leftmost such occurrence |
| `Directive.ConfigShape` | package/eslint-config-bearcnc-base/tests/utils/markdown.js:77-79 | a directive is never empty and holds no quote |
| `Directive.ConfigRoundTrip` | package/eslint-config-bearcnc-base/tests/utils/markdown.js:77-79 | writing `eslint:`, whitespace and a quoted non-empty quote-free text, with no `es` before it, reads back as that text |
| `Markdown.SnippetFound` | package/eslint-config-bearcnc-base/tests/utils/markdown.js:82-85 | a block has a snippet exactly when it contains a `js` fence |
| `Markdown.SnippetShape` | package/eslint-config-bearcnc-base/tests/utils/markdown.js:86 | the snippet is the text right after the first `js` fence; it holds no fence and is followed by one or by the end of the block |
| `Markdown.WithConfigLine` | package/eslint-config-bearcnc-base/tests/utils/markdown.js:89-91 | a directive becomes the code's first line, `/* eslint … */`, and the dedented snippet follows it unchanged |
| `Markdown.ParseCase` | package/eslint-config-bearcnc-base/tests/utils/markdown.js:61-98 | a parsed case keeps its block's kind and is titled with its number; a failure is one of the three per-case errors |
| `Markdown.ParseCaseOutcome` | package/eslint-config-bearcnc-base/tests/utils/markdown.js:63-86 | the block fails at the first missing piece: no comment marker, then no count on the comment line, then no `js` fence; it parses exactly when none is missing |
| `Markdown.ParseCaseCode` | package/eslint-config-bearcnc-base/tests/utils/markdown.js:68-98 | a parsed case's count is the one its comment line states, and its code is the dedented snippet, preceded by the directive line exactly when the comment line carries a directive |
| `Markdown.CollectOk` | package/eslint-config-bearcnc-base/tests/utils/markdown.js:60-99 | the loop completes exactly when every block parses |
| `Markdown.CollectValues` | package/eslint-config-bearcnc-base/tests/utils/markdown.js:93-98 | a completed loop holds one case per block, in block order |
| `Markdown.CollectErr` | package/eslint-config-bearcnc-base/tests/utils/markdown.js:60-99 | a failed loop reports the error of the first block that does not parse |
| `Markdown.CasesDataEmpty` | package/eslint-config-bearcnc-base/tests/utils/markdown.js:54-56 | the last stage reports no test cases exactly when there is no block |
| `Markdown.CasesDataError` | package/eslint-config-bearcnc-base/tests/utils/markdown.js:54-99 | the case stage never reports rule-not-found or availability-not-found |
| `Markdown.GetCases` | package/eslint-config-bearcnc-base/tests/utils/markdown.js:59-104 | with a section, an availability line and at least one block, extraction succeeds exactly when every block parses, and otherwise fails with the first failing block's error |
| `Markdown.GetOk` | package/eslint-config-bearcnc-base/tests/utils/markdown.js:101-104 | a successful extraction returns the profiles of the section's availability line and one case per block, in order, each that block's own parse |
| `Markdown.GetTitles` | package/eslint-config-bearcnc-base/tests/utils/markdown.js:93-98 | the extracted cases keep their blocks' kinds, are titled `<rule> case <i>` from 1, and no two share a title |
| `Linter.FirstInconsistent` | package/eslint-config-bearcnc-base/tests/utils/linter.js:24-30 | the result is the first case whose kind disagrees with its count, or none when all agree |
| `Linter.FirstMismatch` | package/eslint-config-bearcnc-base/tests/utils/linter.js:33-43 | the result is the first case whose linted error count differs from its expected count, or none when all match |
| `Linter.LintCasesPass` | package/eslint-config-bearcnc-base/tests/utils/linter.js:33-43 | the lint loop passes exactly when every case's error count equals its expected count, and then it linted every case in order |
| `Linter.LintCasesFail` | package/eslint-config-bearcnc-base/tests/utils/linter.js:33-43 | a failing lint loop reports the first mismatching case with its expected and actual counts, after linting exactly the cases up to and including it |
| `Linter.LintCasesMismatch` | package/eslint-config-bearcnc-base/tests/utils/linter.js:42 | the lint loop fails only with a count mismatch |
| `Linter.CheckRulePass` | package/eslint-config-bearcnc-base/tests/utils/linter.js:17-44 | the check passes exactly when extraction succeeds, the profile is available, every case's kind agrees with its count, and ESLint reports every case's expected error count |
| `Linter.CheckRuleLintsAll` | package/eslint-config-bearcnc-base/tests/utils/linter.js:33-43 | a passing check linted every case, in document order |
| `Linter.CheckRuleBeforeLint` | package/eslint-config-bearcnc-base/tests/utils/linter.js:18-30 | an extraction, availability or consistency failure happens before any lint call, and its result does not depend on the linter |
| `Linter.CheckRuleUnavailable` | package/eslint-config-bearcnc-base/tests/utils/linter.js:21 | after a successful extraction, the check fails for the profile exactly when the profile is not listed, even if cases are inconsistent |
| `Linter.CheckRuleInconsistent` | package/eslint-config-bearcnc-base/tests/utils/linter.js:24-30 | with an available profile, the first inconsistent case fails the check with the matching should-be-bad or should-be-good assertion, and nothing is linted |
| `Linter.CheckRuleMismatch` | package/eslint-config-bearcnc-base/tests/utils/linter.js:17-44 | a count mismatch comes only after extraction, availability and consistency all pass; it names the first mismatching case after linting exactly the cases up to it |

## Left out

- Reading the document (`fs.readFileSync`): the document's text is a parameter.
- ESLint itself is not modelled: the `ESLint` object, its configuration file and the asynchronous `lintText` call. The number of errors it reports for a piece of code is the parameter `lint`, a function of the code alone. `await` and promise rejection are not modelled.
- The `DEBUG` console output of `checkRule`: it has no effect on the outcome.
- The `chai` assertion machinery: each failing `expect` is a `Fail` outcome carrying its own error. Its message text is not modelled.
- `parseInt` precision: a count is an unbounded natural number. JavaScript would lose precision above 2^53.
- Characters are Unicode scalar values, whereas JavaScript strings are UTF-16 code units. All delimiters the code searches for are ASCII, so only lengths of text with astral characters would differ.
- The export and construction glue, modelled by calling the functions directly:
  - `linter.js` imports a named `getTestCasesData` that `markdown.js` exports only as default;
  - the test files construct `Linter` with two arguments.
- The rule tables, the flat ESLint configuration and the test files that call `checkRule`: declarative data and wiring, outside the extractor and checker.
- `if (eslintConfig)` tests a string's truthiness. The directive expression needs at least one character, so a found directive is never the empty string (`Directive.ConfigShape`), and the model tests for presence.
