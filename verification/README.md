# kati's Makefile line parser, modelled in Dafny

This project models the line-oriented parser of kati (`parser.cc`). The
parser turns the text of a Makefile into an ordered list of AST nodes:
rules, assignments and recipe commands. It has four parts:

- **`FindEndOfLine`** scans to the end of a logical line. A backslash escapes
  the next newline, so continued lines join into one logical line. A `\r`
  leaves the escape flag alone. So does an escaped newline, as the code is
  written (see "## Findings"). The scan counts every newline it consumes.
- **The `Parse` loop** walks the buffer one logical line at a time. It adds
  the consumed newlines to the line counter *before* it parses the line.
- **`ParseLine`** classifies a line:
  - a blank line, or a lone `\r`, is skipped;
  - a tab-prefixed line is a recipe command, unless the state is
    `NOT_AFTER_RULE`;
  - any other line is dispatched on its first `=` or `:`.
- **`ParseRuleAST` and `ParseAssignAST`** split a line into its fields, pick
  the rule terminator or the assignment operator, and drive the three-state
  machine `NOT_AFTER_RULE` / `AFTER_RULE` / `MAYBE_AFTER_RULE`.

## Modules

- `Wrappers` (wrappers.dfy): `Option` and `Result`.
- `Text` (text.dfy): the string-piece helpers the parser relies on:
  - whitespace stripping;
  - `find_first_of`;
  - the bounds-tolerant `get`.
- `Ast` (ast.dfy):
  - the nodes;
  - `ParseExpr`, modelled as a constructor `Expr(raw, isCommand)` that records the text it was given;
  - the assignment operators;
  - the parser state;
  - the parse error.
- `LineScanner` (scanner.dfy):
  - `FindEndOfLine`, as a function and as a loop, for either `Scan`:
    `AsWritten` is the code's scan, `Corrected` clears the backslash flag
    after an escaped newline;
  - the logical lines of a buffer under either scan, with their tiling and
    line numbers.
- `LineParser` (classifier.dfy): `ParseLine`, the separator dispatch, `ParseRuleAST`, `ParseAssignAST`, and the state-machine invariant.
- `Rendering` (render.dfy): writes a node back out as a line. This is the inverse that the round-trip lemmas check `ParseLine` against.
- `Driver` (driver.dfy): the `Parse` loop, and its reading as a fold of `ParseLine` over the logical lines. The loop runs the `AsWritten` scan, as the code does.
- `Examples` (examples.dfy): small inputs with their exact results.

## Modelling choices

- **The error path.** `ERROR` aborts kati. Here it becomes
  `Failure(ParseError(lineno, "*** empty variable name ***"))`, and the parse
  stops at that line.
- **Whitespace.** `StripSpaces` and `StripLeftSpaces` use C's `isspace` in the
  "C" locale: space, `\t`, `\n`, `\v`, `\f` and `\r`. `string_piece.h` is not
  part of this model, so this set is an assumption.
- **`get`.** An index past the end reads as NUL. The dispatch only needs it to
  differ from `=`.
- **`npos`.** A missing separator is `None`. `sep + 1` wraps to 0, so the
  terminator search of a rule then starts at offset 0.
- **Line numbers.** The counter is advanced by the newlines a line consumed,
  its own terminator included, before the line is parsed. So a last line with
  no newline gets the count so far. `fixed_lineno_` is always false, so the
  counter always advances. Command nodes carry no line number, because the
  source never sets a location on them.
- **Separator dispatch.** The dispatch takes the first `=` or `:` of the
  line, whatever precedes it. A backslash before either does not escape it
  (`LineParser.Classify`).
- **Number of lines.** A buffer ending in a newline has no empty line after
  that newline, and an empty buffer has no line at all
  (`LineScanner.LinesTile`).

## Model

| member | source | states |
|---|---|---|
| LineScanner.FindEndOfLine | parser.cc:51-68 | for either scan: the end lies between the start and the buffer's end; it is either the buffer's end or a newline not escaped, that is not preceded by an odd run of backslashes; every newline before it is escaped; the count is the number of newlines up to and including the terminator. As written, carriage returns and newlines are transparent to the run; corrected, only carriage returns are |
| LineScanner.ScanFromStopsAtUnescapedNewline | parser.cc:54-66 | while the flag tracks whether an odd backslash run precedes the cursor, the scan stops exactly at the first unescaped newline |
| LineScanner.FindEndOfLineLoop | parser.cc:51-68 | the imperative scan with its backslash flag and newline counter (for `AsWritten`, the code's loop statement for statement) returns the same end and count as the functional scan, and so meets the same specification |
| LineScanner.AsWrittenSwallowsNewlineAfterContinuation | parser.cc:58-62 | on "a\\\n\nb", the newline at index 3 is preceded by no backslash, yet the scan as written runs on to the end; the corrected scan stops at index 3 |
| LineScanner.LinesTile | parser.cc:32-43 | the logical lines the loop visits, each with its terminating newline, spell out the rest of the buffer in order, with no gap, no overlap and no empty line after a final newline |
| LineScanner.LinesTileBuffer | parser.cc:32-43 | the lines the loop visits tile the buffer: the first starts where the loop starts, and each later one starts just past the previous line's newline |
| LineScanner.TilesSpellBuffer | parser.cc:37-42 | tiling lines, each with its separator, concatenate to the rest of the buffer |
| LineScanner.TilesOrdered | parser.cc:42 | each tiling line ends before the next one starts |
| LineScanner.LinesEndAtUnescapedNewlines | parser.cc:34-42 | for either scan, every logical line ends at an unescaped newline or at the end of the buffer, and every newline inside it is escaped |
| LineScanner.LinesNumbered | parser.cc:33-36 | each line is parsed with the starting number plus the count of newlines from the start through its own terminator |
| LineScanner.LinesLineNumbers | parser.cc:22-36 | line numbers start from the initial count, follow the newline count, and never decrease from one line to the next |
| Text.StripSpaces | parser.cc:108 | the result is the input minus its longest whitespace prefix and suffix, and neither of its ends is whitespace |
| Text.StripLeftSpaces | parser.cc:106 | the result is a suffix of the input after an all-whitespace prefix, and does not start with whitespace |
| Text.StripSpacesOfPadded | parser.cc:108 | text with no whitespace at either end, padded with whitespace, strips back to itself |
| Text.FindFirstOf | parser.cc:83 | the result is the first index at or after the start that holds one of the characters, or none exactly when no such index exists |
| LineParser.Classify | parser.cc:83-94 | no `=` or `:` means a rule with no separator; a first `=` means an assignment there; a first `:` followed by `=` means an assignment at that `=`; any other first `:` means a rule there; the CHECK(false) branch is never reached |
| LineParser.ParseRule | parser.cc:97-116 | one rule node is appended at the current line number; the terminator is the first `=` or `;` after the separator (from offset 0 when there is none); the text before it is stripped; the text after it is left-stripped and in command context exactly after `;`; with no terminator the whole stripped line is the rule; the state becomes AFTER_RULE exactly when the line holds a `:` |
| LineParser.ParseAssign | parser.cc:118-146 | a `=` at offset 0 is the empty-variable-name error; otherwise the character before the `=` selects `:=`, `+=`, `?=` or `=`; the operator is spelled by the characters ending at the `=`; the left side is the stripped text before the operator and the right side the left-stripped text after the `=`; no directive; the state becomes NOT_AFTER_RULE |
| LineParser.OperatorEndsAtSeparator | parser.cc:121-136 | the operator chosen from the character before the `=` is exactly the text ending at the `=`, and `=` alone is chosen only when that character is none of `:+?` |
| LineParser.ParseLine | parser.cc:70-95 | only a line starting with `=` fails; a blank line or lone CR changes nothing; otherwise exactly one node is appended and the earlier ones are kept; a command is appended exactly when the line starts with a tab and the state is not NOT_AFTER_RULE, holds the rest of the line and keeps the state |
| LineParser.ParseLinePreservesConsistency | parser.cc:10-14 | each successful line keeps the state consistent with the output: the state is NOT_AFTER_RULE exactly when nothing was emitted or the last node is an assignment, and every command follows a rule or another command |
| Rendering.AssignRoundTrip | parser.cc:118-146 | parsing the rendered line of an assignment with a trimmed name free of `=` and `:` appends exactly that assignment, at the current line number, and resets the state |
| Rendering.ClassifyAssignText | parser.cc:83-89 | an assignment line is dispatched to an assignment at its operator's `=`, also for `:=` |
| Rendering.ParseAssignText | parser.cc:138-145 | `ParseAssignAST` at the operator's `=` gives back the name, the operator and the value |
| Rendering.ParseLineAssignText | parser.cc:70-95 | parsing an assignment line appends that assignment and resets the state |
| Rendering.RuleRoundTrip | parser.cc:97-116 | parsing the rendered line of a rule appends exactly that rule, with its terminator and trailing part; the state becomes AFTER_RULE exactly when the target part holds a `:` |
| Rendering.ClassifyRuleText | parser.cc:83-94 | a rule line is dispatched as a rule at the first `:` of its target part, or without a separator |
| Rendering.ClassifyRuleTextAtColon | parser.cc:90-91 | the first `:` of the target part, not followed by `=`, is the rule's separator |
| Rendering.ClassifyRuleTextNoColon | parser.cc:84-85 | a rule line without `:` has no separator at all |
| Rendering.RuleTextColon | parser.cc:98 | a `:` of the rule line can only come from its target part |
| Rendering.RuleTextTerminator | parser.cc:102-104 | the terminator search started inside the target part finds the rule's own terminator, or none |
| Rendering.RuleTextFields | parser.cc:106-112 | stripping the pieces around the terminator gives back the target part and the trailing part |
| Rendering.ParseRuleText | parser.cc:97-116 | `ParseRuleAST` at that separator recovers the target part, the terminator and the trailing part |
| Rendering.CommandRoundTrip | parser.cc:74-79 | after a rule, a tab followed by a command's text parses back to that command, and the state is kept |
| Driver.LoopIsFold | parser.cc:29-44 | for any handler that keeps the line counter, the loop is the fold of the handler over the logical lines, each handled with its own line number and stopping at the first error |
| Driver.ParseLineKeepsLineNumber | parser.cc:70-146 | `ParseLine` never changes the line counter |
| Driver.ParseFromIsRunLines | parser.cc:29-44 | the loop of `Parse` is the fold of `ParseLine` over the logical lines of the buffer |
| Driver.RunLinesFailure | parser.cc:118-120 | the fold fails exactly when some logical line starts with `=`; the error carries the number of the first such line |
| Driver.RunLinesAppends | parser.cc:70-146 | a successful fold keeps the earlier nodes, appends one node per non-blank line, keeps the state consistent, and leaves the counter at the last line's number |
| Driver.ParseOutcome | parser.cc:29-44 | a whole parse fails exactly when some logical line starts with `=`, with the first such line's number; otherwise it yields one node per non-blank logical line, and every command follows a rule |
| Driver.ParseLoop | parser.cc:29-44 | the loop as written, with a cursor, the imperative line-end scan as written and early exits, returns what `Parse` does |
| Examples.SemicolonWithoutSeparator | parser.cc:84-85 | with no `=` or `:`, the terminator search starts at offset 0, so "a ; b" is a rule with terminator `;` |
| Examples.EmptyNameWithColonEquals | parser.cc:119 | " := x" is an assignment with an empty name and no error |
| Examples.EqualsAtStartFails | parser.cc:119-120 | "=value" is the empty-variable-name error at the current line number |
| Examples.RuleWithoutTerminator | parser.cc:109-113 | "x: y" is a rule holding the whole line, with no terminator |
| Examples.LastLineWithoutNewline | parser.cc:67 | without a newline the line runs to the end of the buffer and consumes no newline |
| Examples.RuleWithoutNewline | parser.cc:35-39 | "x: y" alone parses to one rule numbered 0 |
| Examples.ContinuationJoinsLines | parser.cc:56-62 | a backslash-newline joins two physical lines into one logical line, numbered through its terminator |
| Examples.RuleThenCommand | parser.cc:29-44 | "x:\n\tcmd" parses to a rule numbered 1 followed by its command |
| Examples.EmptyTargetRule | parser.cc:102-108 | " ; echo" is a rule with an empty target part, terminator `;` and the command "echo" |
| Examples.BlankLineAfterContinuationAsWritten | parser.cc:51-68 | as written, "x:\\\n\ny = 1" is a single logical line numbered 2 |
| Examples.BlankLineAfterContinuationCorrected | parser.cc:51-68 | with the corrected scan the same buffer is two logical lines, split at the blank line |
| Examples.BlankLineAfterContinuationParses | parser.cc:29-44 | `Parse` of "x:\\\n\ny = 1" is one rule at line 2 whose terminator is the `=` of the third physical line; no assignment is produced |

## Left out

- `ParseExpr` (value.h) is not part of this model. It becomes the
  constructor `Expr(raw, isCommand)`. Variable references, functions and
  continuation stripping inside an expression are not modelled.
- `Error`, `ERROR` and `LOCF` (parser.cc:47-49): the message formatting and
  the process exit become a `Failure` carrying the line number and message.
  The file name of the location is not modelled.
- `string_piece.h` is not part of this model. `StripSpaces`,
  `StripLeftSpaces`, `find_first_of` and `get` are defined here by the
  behaviour the parser relies on, and the whitespace set is C's `isspace`.
- Heap allocation of nodes and the `vector<AST*>` out-parameter become a
  returned sequence of nodes.
- `Parse(Makefile*)` (parser.cc:158-163) only unpacks the buffer and the file
  name, and is not modelled.
- Directives (parser.cc:81) are a TODO in the source. Such lines fall through
  to the rule/assignment dispatch, as in the code. The directive of every
  assignment is `NoDirective`.
- `fixed_lineno_` (parser.cc:23, 35) is always false, so the counter always
  advances. The flag itself is not modelled.
- The round-trip lemmas cover the nodes a single line can express: a
  stripped name or target, a left-stripped value or trailing part, and no
  separator character inside a field that would change the dispatch.
  `ParseRule` and `ParseAssign` state the field split for every line.

## Findings

| source | as written | input that shows it | evidently intended | confidence | as-written member | corrected member |
|---|---|---|---|---|---|---|
| parser.cc:58-62 | after a backslash-escaped newline, `prev_backslash` stays set, so the next newline also counts as escaped; `Parse` keeps this behaviour (`Examples.BlankLineAfterContinuationParses`), and `FindEndOfLine` with `Corrected` is the fix | "a\\\n\nb": the blank line at index 3 is preceded by no backslash, yet the scan runs to the end (end 5 instead of 3) and joins three physical lines into one | an escaped newline clears the flag, so a newline ends the line exactly when an odd backslash run (carriage returns transparent) does not precede it | not executed | LineScanner.AsWrittenSwallowsNewlineAfterContinuation | LineScanner.FindEndOfLine |
