# Quiz markdown parser and quiz session, modelled in Dafny

The program is a browser quiz. It reads a markdown document and extracts its
questions. Each question is a header line (`## Q1.`, `#### Question 2:`,
`# 3.`), followed by optional continuation lines of question text, optional
fenced code blocks, and a checkbox list of options. The `[x]` box marks the
correct answer. Every piece of text is HTML-escaped. A question that does
not have text, at least two options, and a correct answer among those
options is dropped. The quiz session then shuffles the questions with
Fisher–Yates and shows at most 20. It counts the correct answers and passes
a score of at least 75 %. A countdown is shown as `MM:SS`, with its length
taken from a minutes field that defaults to 10.

The model is split into these modules:

- `Text`: JavaScript's `\s`, `trim`, `split` and `join`.
- `Numbers`: decimal rendering and `parseInt`.
- `Html`: `escapeHtml` and `formatCodeBlock`.
- `LinePatterns`: the header, option and fence tests and the per-line
  classification.
- `QuizParser`: the scan state, the per-line step, the final filter and
  `parseQuizContent`.
- `QuizBlocks`: lemmas about whole runs of lines.
- `FisherYates`: `shuffleArray`.
- `TimerDisplay`: the `MM:SS` text.
- `QuizSession`: the constants, the sample, the score, the pass test, the
  timer and the duration.

Two regular expressions are modelled as greedy index matchers:
`/^#+\s*(Q\d+\.|Question\s*\d+[:.]?|\d+\.)\s*(.*)$/i` and
`/^\s*[-*]\s*\[(x|\s)\]\s*(.*)$/i`. Completeness and soundness lemmas tie
each matcher to a description of which lines the expression matches and
what it captures. Each call to `Math.random` becomes an explicit choice
`c[i]` in `0..i`. The element of the DOM that was checked becomes an
optional selected value per question.

Two details of the code are worth stating, and the model follows the code
in both:

- The comment at js/quiz-parser.js:65 shows the boxes `[ ]` and `[x]`, but
  the checkbox `[(x|\s)]` of the expression at js/quiz-parser.js:67 accepts
  any single whitespace character, not only a space.
- The code escapes every line of a code block as it collects it
  (js/quiz-parser.js:40) and joins the escaped lines when the fence closes
  (js/quiz-parser.js:30). `QuizBlocks.EscapeJoin` proves this gives the same
  text as escaping the joined block, because a newline is never escaped.

## Model

| member | source | states |
|---|---|---|
| Text.Split | js/quiz-parser.js:14 | `content.split('\n')` gives at least one piece, and no piece contains a newline |
| Text.JoinSplit | js/quiz-parser.js:14 | joining the pieces of a split with the separator gives back the original text |
| Text.Trim | js/quiz-parser.js:26 | the trimmed text is a contiguous slice of the input, with only whitespace on both sides of it, and it neither starts nor ends with whitespace |
| Text.TrimStartsAt | js/quiz-parser.js:26 | when a line is not all whitespace, its trimmed text starts with the first character that is not whitespace |
| Text.BlankIffAllWs | js/quiz-parser.js:45 | `line.trim() === ''` holds exactly when every character of the line is whitespace |
| Numbers.NatToString | js/main.js:439 | `toString` of a non-negative integer is a non-empty run of decimal digits with no leading zero, and it is one character long exactly when the number is below 10 |
| Numbers.NatToStringValue | js/main.js:439 | reading the decimal text of a number back gives that number |
| Numbers.IntToString | js/main.js:438-439 | no contract of its own: `toString` of an integer, a minus sign before the decimal text of its size when it is negative. It is characterised by `Numbers.ParseIntToString` |
| Numbers.ParseInt | js/main.js:397 | no contract of its own: leading whitespace, an optional sign, and the longest run of digits (hexadecimal after `0x`). `None` is `NaN`. It is characterised by `Numbers.ParseIntToString`, `QuizSession.DurationOfMinutes` and `QuizSession.DurationWithoutDigits` |
| Numbers.ParseIntToString | js/main.js:397 | `parseInt` of the decimal text of any integer, negative ones included, gives that integer |
| Html.EscapeHtml | js/quiz-parser.js:112-118 | no contract of its own: the five (character, entity) replacements applied in turn. It is characterised by `Html.EscapeHtmlUnrolled`, `Html.EscapeHtmlIsCharMap`, `Html.EscapeHtmlNoRawMarkup` and `Html.UnescapeEscapeHtml` |
| Html.EscapeHtmlUnrolled | js/quiz-parser.js:112-118 | the escape is the chain of five global replacements, in the source's order: `&` first, then `<`, `>`, `"`, `'` |
| Html.ReplaceAllConcat | js/quiz-parser.js:113-118 | one global replacement of a character distributes over concatenation |
| Html.EscapeHtmlConcat | js/quiz-parser.js:112-118 | escaping a concatenation is concatenating the escapes |
| Html.EscapeHtmlChar | js/quiz-parser.js:112-118 | the chain maps each single character to its own entity, or leaves it unchanged when it is not special, so `&` is never escaped twice |
| Html.EscapeChar | js/quiz-parser.js:112-118 | a character is changed exactly when it is one of the five special ones |
| Html.EscapeEach | js/quiz-parser.js:112-118 | the per-character reference escape never shrinks its input, leaves no raw `<`, `>`, `"` or `'`, and is the identity on text without special characters |
| Html.EscapeHtmlIsCharMap | js/quiz-parser.js:112-118 | the replacement chain equals the per-character reference escape on every input |
| Html.EscapeHtmlNoRawMarkup | js/quiz-parser.js:112-118 | escaped text contains no raw `<`, `>`, `"` or `'` |
| Html.EscapeHtmlIdentityOnSafe | js/quiz-parser.js:112-118 | text without special characters comes through the escape unchanged |
| Html.UnescapeEscapeHtml | js/quiz-parser.js:112-118 | decoding the five entities undoes the escape: escaping loses no information |
| Html.EscapeHtmlInjective | js/quiz-parser.js:112-118 | two different texts never escape to the same text |
| Html.FormatCodeBlock | js/quiz-parser.js:103-105 | the block is the opening `<pre class="code-snippet">` tag, then the code unchanged, then `</pre>` |
| Html.FormatCodeBlockTags | js/quiz-parser.js:103-105 | when the code is escaped text, the only `<` characters of the block are the first characters of its two tags |
| LinePatterns.IsFence | js/quiz-parser.js:26 | no contract of its own: the trimmed line starts with three backticks. `LinePatterns.Classify` and `QuizParser.StepFenceFlag` state its role |
| LinePatterns.HeaderMatch | js/quiz-parser.js:48 | no contract of its own. It is characterised by `LinePatterns.HeaderMatchComplete` and `LinePatterns.HeaderMatchSound` |
| LinePatterns.OptionMatch | js/quiz-parser.js:67 | no contract of its own. It is characterised by `LinePatterns.OptionMatchComplete` and `LinePatterns.OptionMatchSound` |
| LinePatterns.Classify | js/quiz-parser.js:26-81 | each kind is given exactly when the parser's tests reach it in their order: a fence exactly when the trimmed text starts with three backticks; code exactly when it is not a fence and a fence is open; blank exactly when it is neither and the trimmed text is empty; a header exactly when it is none of these and the header expression matches, carrying its capture; an option exactly when it is none of these, no header matches and the option expression matches, carrying its box and capture; plain text exactly when nothing else applies |
| LinePatterns.HeaderIsClassified | js/quiz-parser.js:26-49 | a line the header expression matches is neither a fence nor blank, so outside a fence it is always taken as a header |
| LinePatterns.OptionIsClassified | js/quiz-parser.js:26-68 | a line the option expression matches and the header expression does not is neither a fence nor blank, because its trimmed text starts with the list marker; so outside a fence it is always taken as an option with that box and capture |
| LinePatterns.HashNotFenceOrBlank | js/quiz-parser.js:26-45 | a line starting with `#` is neither a fence nor blank |
| LinePatterns.MarkerEndComplete | js/quiz-parser.js:48 | the greedy scan of the numbering token succeeds whenever some reading of `Q\d+\.`, `Question\s*\d+[:.]?` or `\d+\.` matches, and it stops no earlier than that reading |
| LinePatterns.MarkerEndSound | js/quiz-parser.js:48 | wherever the greedy numbering scan stops, the text it consumed is one of the three token forms |
| LinePatterns.HeaderMatchComplete | js/quiz-parser.js:48 | every line that splits as hashes, whitespace, a numbering token, whitespace and a rest (with no line terminator) is matched as a header |
| LinePatterns.HeaderMatchSound | js/quiz-parser.js:48 | a header match always comes from such a split, and the capture is the rest of the line after it |
| LinePatterns.OptionMatchComplete | js/quiz-parser.js:67 | every line that splits as whitespace, `-` or `*`, whitespace, a one-character box, whitespace and a rest is matched as an option, and it is checked exactly when the box holds `x` or `X` |
| LinePatterns.OptionMatchSound | js/quiz-parser.js:67 | an option match always comes from such a split, and it captures the box test and the rest of the line |
| Text.Join | js/quiz-parser.js:30 | no contract of its own: `Array.join`. It is characterised by `Text.JoinSplit`, `QuizBlocks.JoinSnoc` and `QuizBlocks.EscapeJoin` |
| QuizParser.Step | js/quiz-parser.js:22-82 | no contract of its own: one loop iteration, which classifies the line and acts on its kind. It is characterised by `QuizParser.StepSafe`, `QuizParser.StepFenceFlag` and `QuizBlocks.RunIsFold` |
| QuizParser.StepKind | js/quiz-parser.js:26-81 | no contract of its own: the action for each kind of line. It is characterised by `QuizParser.StepKindSafe` and `QuizBlocks.StepAnswers` |
| QuizParser.OnFence | js/quiz-parser.js:26-36 | no contract of its own. It is characterised by `QuizParser.StepFenceFlag` and `QuizBlocks.FencedBlock` |
| QuizParser.OnHeader | js/quiz-parser.js:49-62 | no contract of its own. It is characterised by `QuizParser.HeaderSafe` and `QuizBlocks.QuestionFromHeader` |
| QuizParser.OnOption | js/quiz-parser.js:66-76 | no contract of its own. It is characterised by `QuizParser.OptionSafe`, `QuizBlocks.StepAnswers` and `QuizBlocks.BlockAnswers` |
| QuizParser.OnText | js/quiz-parser.js:77-80 | no contract of its own. It is characterised by `QuizBlocks.ContinuationLines` and `QuizBlocks.DroppedAfterOptions` |
| QuizParser.RunFrom | js/quiz-parser.js:22-82 | no contract of its own: the loop over the lines. It is characterised by `QuizParser.RunFromAppend`, `QuizParser.RunSafe`, `QuizParser.FenceState` and `QuizBlocks.RunIsFold` |
| QuizParser.Finish | js/quiz-parser.js:85-87 | no contract of its own: the closed questions followed by the open one. It is characterised by `QuizBlocks.QuestionCount` |
| QuizParser.IsValid | js/quiz-parser.js:91-94 | no contract of its own: non-empty text, at least two options, and a non-empty correct answer that is one of the options. `QuizParser.Filter` and `QuizParser.ParseQuizContent` use it |
| QuizParser.ParseLines | js/quiz-parser.js:22-95 | no contract of its own: the scan, the final flush and the filter. It is characterised by `QuizBlocks.ParseBoundedByHeaders` and `QuizBlocks.PreambleIgnored` |
| QuizParser.AppendCode | js/quiz-parser.js:29-31 | a closing fence appends the formatted, newline-joined code to the open question's text and leaves its options and answer alone. It does nothing when no question is open |
| QuizParser.Filter | js/quiz-parser.js:90-95 | a question survives the filter exactly when it was parsed and is valid |
| QuizParser.FilterAppend | js/quiz-parser.js:90-95 | filtering a concatenation is concatenating the filtered parts |
| QuizParser.FilterIsSubsequence | js/quiz-parser.js:90-95 | the kept questions appear in their parse order |
| QuizParser.FilterCounts | js/quiz-parser.js:90-95 | a valid question keeps its number of occurrences, and an invalid one has none left |
| QuizParser.ParseQuizContent | js/quiz-parser.js:12-96 | every question returned has text, at least two options and a correct answer among them, and its options and answer hold no raw markup |
| QuizParser.RunFromAppend | js/quiz-parser.js:22-82 | scanning two runs of lines one after the other is scanning their concatenation |
| QuizParser.StepSafe | js/quiz-parser.js:22-82 | one line keeps the scan invariant: the code buffer is empty outside a fence, question text is extended only while a question is open, and every option and answer recorded is escaped |
| QuizParser.StepKindSafe | js/quiz-parser.js:26-81 | each branch of the line step keeps that invariant |
| QuizParser.HeaderSafe | js/quiz-parser.js:49-62 | opening a question keeps that invariant |
| QuizParser.OptionSafe | js/quiz-parser.js:66-76 | recording an option, and possibly the answer, keeps that invariant |
| QuizParser.RunSafe | js/quiz-parser.js:22-87 | after any run of lines, every question closed or still open has escaped options and answer |
| QuizParser.StepFenceFlag | js/quiz-parser.js:26-36 | one line flips the fence flag exactly when it is a fence line |
| QuizParser.FenceState | js/quiz-parser.js:26-36 | after a run of lines, a fence is open exactly when the starting flag differs from the parity of the number of fence lines |
| QuizBlocks.KindAt | js/quiz-parser.js:22-45 | line `i` is classified with the fence flag that the fence lines before it leave |
| QuizBlocks.RunIsFold | js/quiz-parser.js:22-82 | the scan is the fold of the per-kind step over the classified lines |
| QuizBlocks.QuestionCount | js/quiz-parser.js:48-87 | the questions closed or still open grow by exactly the number of header lines outside fences: each header opens one question, and no other line opens or drops one |
| QuizBlocks.ParseBoundedByHeaders | js/quiz-parser.js:48-95 | the parse returns at most as many questions as there are header lines outside fences, and none when there are no such lines |
| QuizBlocks.NoHeaderNoQuestions | js/quiz-parser.js:12-96 | a document in which no line matches the header expression parses to no questions |
| QuizBlocks.StepAnswers | js/quiz-parser.js:26-81 | a line other than a header keeps the open question open, keeps its text as a prefix, adds the line's option (if any) and overrides the answer when the box is checked. An option line stops later plain lines from extending the text, and any other line leaves that flag as it is |
| QuizBlocks.BlockAnswers | js/quiz-parser.js:66-76 | across a header-free block, the options are the old ones followed by the block's option texts in order, and the answer is the last checked option or the old answer when none is checked. Plain lines still extend the text afterwards exactly when they did before and the block has no option |
| QuizBlocks.QuestionFromHeader | js/quiz-parser.js:48-76 | a header closes the previous question, and the question it opens has text that starts with its escaped capture, the block's options in order, and the last checked option as answer, or `''` when none is checked. Plain lines still extend its text exactly when the block has no option |
| QuizBlocks.ContinuationLines | js/quiz-parser.js:45-79 | while the question text is still being read, each plain line adds `<br>` and the escaped line, a blank line adds nothing, and nothing else changes |
| QuizBlocks.DroppedAfterOptions | js/quiz-parser.js:45-80 | when plain lines no longer extend the question text, plain and blank lines change nothing at all. The flag is cleared by an option line, as `QuizBlocks.StepAnswers` states, and `QuizBlocks.DroppedAfterFirstOption` combines the two |
| QuizBlocks.DroppedAfterFirstOption | js/quiz-parser.js:45-80 | after a header-free block that has yielded at least one option and leaves no fence open, the plain and blank lines that follow change nothing |
| QuizBlocks.AllCodeLines | js/quiz-parser.js:39-42 | inside an open fence, every line that is not a fence is code, headers and option lines included |
| QuizBlocks.CodeLinesAccumulate | js/quiz-parser.js:39-42 | inside a fence, each line is buffered escaped and nothing else changes |
| QuizBlocks.EscapeJoin | js/quiz-parser.js:30-40 | escaping each code line and joining with newlines gives the same text as escaping the joined block |
| QuizBlocks.FenceOpens | js/quiz-parser.js:26-42 | after an opening fence, code lines only collect their escaped text; the question, the closed list and the flags other than the fence flag are untouched |
| QuizBlocks.FencedBlock | js/quiz-parser.js:26-42 | a complete fenced block appends `<pre class="code-snippet">`, the escaped lines joined by newlines, and `</pre>` to the open question, empties the buffer and changes nothing else |
| QuizBlocks.UnterminatedFence | js/quiz-parser.js:26-87 | a fence that is never closed, and every line after it, add nothing to the questions |
| QuizBlocks.PreambleIgnored | js/quiz-parser.js:48-87 | lines before the first header, with their fences balanced, do not affect the parse |
| FisherYates.Swap | js/main.js:517 | the destructuring swap exchanges the two slots and leaves every other slot alone |
| FisherYates.SwapPermutes | js/main.js:517 | a swap keeps the multiset of elements |
| FisherYates.ShuffleDown | js/main.js:515-518 | the steps from the last index down to `k` keep the length and the multiset of elements |
| FisherYates.Shuffle | js/main.js:514-519 | the whole shuffle is a permutation of its input |
| FisherYates.ShuffleArray | js/main.js:514-519 | the in-place loop leaves the array equal to the functional shuffle of its old contents, and returns the same array |
| FisherYates.ShuffleDistinct | js/main.js:514-519 | a list without repeats is shuffled into a list without repeats |
| FisherYates.PositionsDown | js/main.js:514-519 | the shuffle's movement of positions maps each slot to a valid position |
| FisherYates.ShuffleIndex | js/main.js:514-519 | the shuffled list reads the input through an arrangement of its positions in which no position occurs twice |
| QuizSession.SampleCount | js/main.js:224 | `Math.min(20, n)`: no more than the available questions and no more than 20, and equal to one of them |
| QuizSession.SelectQuestions | js/main.js:224-227 | the questions shown are the first `min(20, n)` of the shuffle of a copy of all questions: none when there are none, each one taken from a different source position, so no question is shown more often than it occurs |
| QuizSession.LeadingOfShuffle | js/main.js:227 | a prefix of the shuffle reads distinct positions of the input and is a sub-multiset of it |
| QuizSession.CountCorrect | js/main.js:317-320 | the `reduce` counts at most one per question shown |
| QuizSession.CountIsCorrectSet | js/main.js:317-320 | the count is the number of questions whose selected option equals the correct answer |
| QuizSession.CountExtremes | js/main.js:317-320 | the count is the total exactly when every answer is right, and zero exactly when none is |
| QuizSession.IsApproved | js/main.js:323-330 | no contract of its own: `count / total * 100 >= 75` compared exactly, false when the total is zero. It is characterised by `QuizSession.ApprovedIffMinimum` and `QuizSession.ApprovedMonotone` |
| QuizSession.ApprovedIffMinimum | js/main.js:323-330 | with at least one question, the score passes exactly when the count reaches 75 % of the total rounded up |
| QuizSession.ApprovedMonotone | js/main.js:323-330 | with the same total, more correct answers never turn a pass into a fail |
| QuizSession.PaddedValue | js/main.js:439 | a field padded to two characters is all digits, reads back as its number, and is exactly two characters when the number is below 100 |
| QuizSession.IsTimerDisplay | js/main.js:438-439 | no contract of its own: the shape of an `MM:SS` text for given minutes and seconds. It is the property `QuizSession.TimerTextShape`, `QuizSession.DisplayFields` and `QuizSession.FieldsRead` establish |
| QuizSession.TimerTextShape | js/main.js:434-439 | for every non-negative time the display is a decimal minutes field holding the time divided by 60, a colon, and exactly two decimal digits holding the time modulo 60; it is five characters below 100 minutes, and reading it back gives the time |
| QuizSession.DisplayFields | js/main.js:438-439 | for seconds below 60, the padded minutes and seconds around a colon hold those two numbers in their fields, and read back as `60 * minutes + seconds` |
| QuizSession.FieldsRead | js/main.js:438-439 | any text made of a decimal field, a colon and a two-digit decimal field holds the two values in its fields and reads back as `60 * minutes + seconds` |
| QuizSession.QuizDurationSeconds | js/main.js:397-398 | the countdown length is always a whole number of minutes |
| QuizSession.DurationOfMinutes | js/main.js:397-398 | a typed number of minutes gives that many minutes. Zero is falsy, so it gives the default of 10 |
| QuizSession.NoDigitsNaN | js/main.js:397 | `parseInt` of a text without a single decimal digit is `NaN` |
| QuizSession.DurationWithoutDigits | js/main.js:397-398 | a field without any digit parses as `NaN` and gives the default of 10 minutes |
| TimerDisplay.TimerText | js/main.js:434-439 | no contract of its own: floored minutes and JavaScript's remainder of seconds, each padded around a colon. It is characterised by `QuizSession.TimerTextShape` |
| TimerDisplay.Display | js/main.js:438-439 | no contract of its own: the padded `toString` of the minutes, a colon and the padded `toString` of the seconds. It is characterised by `QuizSession.DisplayFields` |
| TimerDisplay.JsRem | js/main.js:435 | JavaScript's `%` equals Dafny's remainder for a non-negative dividend, and for a negative one it is zero or negative and smaller in size than the divisor |
| TimerDisplay.PadStart2 | js/main.js:439 | `padStart(2, '0')` ends with the original text, is at least two characters long, and adds only zeros in front |

## Left out

- The DOM, event handlers, `FileReader`, `alert`, and showing or hiding
  screens are I/O. The selected radio button of each question is a
  parameter of `QuizSession.CountCorrect`.
- `setInterval` and `clearInterval`, the one-second tick and the automatic
  submission at zero are clocks. Only the display text and the starting
  duration are modelled.
- `Math.random` is an explicit sequence of choices. Whether the shuffle is
  uniform is a probabilistic property and is not stated.
- The option shuffle in `createQuestionElement` calls the same
  `shuffleArray`, so `FisherYates.Shuffle` covers it. Building the
  question's HTML is not modelled.
- The percentage text `toFixed(2)` is floating-point formatting. The pass
  test is modelled exactly as the integer comparison
  `100 * count >= 75 * total`.
- The `hasCode` field is never read or changed, and it is not modelled.
  The same holds for the unused `codeBlockContent` state.
- The error messages for an empty quiz and for a failed file read are not
  modelled.
- JavaScript strings are sequences of UTF-16 code units. The model's
  strings are sequences of characters, and `\s` is the concrete set of
  JavaScript whitespace characters. The `i` flag is modelled as ASCII case
  folding only, which is all the two patterns need.
- QuizSession.QuizDurationSeconds reads numbers as unbounded integers. It
  does not model the loss of precision of `parseInt` above 2^53.
  `Numbers.NatToString` does not model the exponent form that `toString`
  uses from 10^21 up.
- QuizSession.TimerTextShape is stated for non-negative times only.
  Negative times come only from a negative minutes field: `parseInt("-5")`
  is truthy, so the countdown starts at -300 seconds and shows `-5:00`,
  then `-6:-1`, before the `<= 0` test stops it. That case is not
  modelled.
