# Exam player: a verified model

This project models the core of a small React exam player in Dafny:

- **The exam session** (`src/pages/display.jsx`). One timed run over a fixed, non-empty question set:
  - a start screen;
  - a one-second countdown loaded with the sum of the question durations;
  - answer selection keyed by question id;
  - next, previous and a jump grid;
  - submission, scoring, a results screen and restart.

  The six pieces of React state are the fields of the class `Display.Session`. Each handler is a method whose new state is a pure step function (`OnStart`, `OnTick`, `OnSelect`, …) of the old state, and the properties are proved about those step functions. The interval callback is the explicit `Tick`, which acts only under the condition that arms the timer. `calculateResults` is a method with the source's counting loop, proved equal to the specification function `Score`.
- **The view switch** (`src/App.jsx`). Two fields, `currentView` and `selectedSubject`, are changed by four handlers. A precedence rule picks the page: examples, then subjects, then the exam when a subject is selected, then a fallback subject picker. App hands `handleBackToSubjects` to `Display`, but `Display` takes no props, so no button calls it: once a subject is chosen, the subject picker never comes back and the subject never changes (`App.NoWayBackToSubjects`). Showing the examples unmounts `Display`, so its session is discarded and a fresh one starts on the way back; the model keeps the state of the two components apart.
- **The math text renderer** (`src/components/MathRenderer.jsx`):
  - `convertToLatex`, the ordered chain of global regular-expression replacements;
  - `hasMath`;
  - `renderMixedContent`, which splits on `$…$` / `$$…$$` with a capturing pattern and classifies each part as block math, inline math or plain text;
  - the empty-input and `block` branches.

  Global replacement is modelled as JavaScript performs it: leftmost, non-overlapping matches, with the scan resuming after each match (module `Rewrite`). A segment carries the LaTeX source that KaTeX would be given.

Behaviour kept as the code has it:

- **The handlers have no phase guards.** Selecting, moving, submitting and restarting act in any phase, not only during an exam in progress. Only the screen on display decides which handlers a user can reach.
- **Timeout does not submit.** The tick only sets `examFinished`. The question screen stays up at `00:00`, answers can still be changed, and submitting then shows the results (`Display.TimeoutKeepsQuestionScreen`).
- **The jump grid never goes out of range.** The grid has one button per existing question, so `OnJump` requires a valid target.
- **The results screen divides by the question count.** Its marks line prints `totalMarks / questions.length`, not over the maximum marks (`Display.Render`, field `marksOutOf`).
- **Total marks come from the first question.** `totalMarks` is `correct × questions[0].marks`, whatever the other questions' marks.
- **Two unit rules never fire.** In `convertToLatex` the `m/s^2` and `m/s2` rules never fire: the earlier fraction rule has already rewritten every word, `/`, word (`MathRenderer.UnitRulesNeverFire`). The `m/s^2` rule would in any case replace the text by itself.

## Model

| member | source | states |
|---|---|---|
| Display.Letter | src/pages/display.jsx:210-217 | an option button passes one of the one-character letters `a`–`d` |
| Display.TotalTime | src/pages/display.jsx:17 | the `reduce` as a left fold over the questions, adding each duration to the running total (its properties are the three rows below) |
| Display.TotalTimeZero | src/pages/display.jsx:17-20 | the summed duration is 0 exactly when every question has duration 0, which is when the timer never arms |
| Display.DurationWithinTotal | src/pages/display.jsx:17 | every question's duration is included in the total exam time |
| Display.TotalTimeAppend | src/pages/display.jsx:17 | the reduce is additive: the total of two concatenated question lists is the sum of their totals |
| Display.Attempted | src/pages/display.jsx:68 | a question is attempted when its id has an entry in the answer record (every stored letter is a non-empty, truthy string) |
| Display.AnsweredCorrectly | src/pages/display.jsx:69 | a question is correct when its entry equals its answer letter |
| Display.AttemptedCount | src/pages/display.jsx:67-69 | the number of attempted questions never exceeds the number of questions |
| Display.CorrectCount | src/pages/display.jsx:70-72 | correct answers never outnumber attempted questions |
| Display.Score | src/pages/display.jsx:63-83 | correct + incorrect + unattempted = n; all are non-negative; correct ≤ attempted ≤ n; totalMarks = correct × marks of the first question |
| Display.CalculateResults | src/pages/display.jsx:63-83 | the counting loop over the questions returns exactly `Score` of the questions and the answer record |
| Display.AttemptedCountIsCardinality | src/pages/display.jsx:67-69 | attempted equals the number of positions whose question id has an entry in the record |
| Display.AttemptedCountMonotone | src/pages/display.jsx:67-69 | adding entries to the answer record never lowers the attempted count |
| Display.NothingAttempted | src/pages/display.jsx:67-69 | with an empty record no question counts as attempted |
| Display.ScoreOfNoAnswers | src/pages/display.jsx:63-83 | submitting with no answers scores 0 correct, 0 incorrect, all unattempted, 0 marks |
| Display.AllCorrect | src/pages/display.jsx:70-72 | when every question carries its correct letter, the correct count is n |
| Display.ScoreOfCorrectAnswers | src/pages/display.jsx:63-83 | all answers correct scores n correct, nothing incorrect or unattempted, n × first marks |
| Display.FormatTime | src/pages/display.jsx:85-89 | the clock is digits `:` two digits; minutes × 60 + seconds gives back the input, and seconds < 60; minutes wider than two places carry no leading zero |
| Display.ClockWidth | src/pages/display.jsx:85-89 | under 100 minutes the clock is exactly five characters `MM:SS` |
| Display.TimerArmed | src/pages/display.jsx:20 | the interval runs exactly while the exam is started, not finished and the clock is above zero (used by `OnTick` and the countdown lemmas) |
| Display.OnStart | src/pages/display.jsx:34-37 | starting sets `started` and loads the clock with the total duration; nothing else changes and consistency is kept |
| Display.OnTick | src/pages/display.jsx:20-28 | a tick never raises the clock and never makes it negative; outside the armed condition it changes nothing; at ≤ 1 s it zeroes the clock and sets `finished` only; otherwise it takes exactly one second off |
| Display.TickConsistent | src/pages/display.jsx:20-28 | a tick keeps the session consistent (index in range, 0 ≤ clock ≤ total) |
| Display.CountingDown | src/pages/display.jsx:20-28 | from an armed clock at r, k < r ticks leave r − k on the clock with the exam still running |
| Display.CountdownFinishes | src/pages/display.jsx:20-28 | from an armed clock at r, r ticks (or more) reach 0 and set `finished`, leave `showResults` false and keep answers and index |
| Display.TicksIdle | src/pages/display.jsx:20 | once the timer is disarmed, any number of ticks changes nothing |
| Display.OnSelect | src/pages/display.jsx:39-44 | the current question's id maps to the chosen letter, replacing any earlier one; the key set gains only that id; every other entry is unchanged |
| Display.SelectLastWins | src/pages/display.jsx:39-44 | selecting twice on one question is selecting the later letter once |
| Display.OnNext | src/pages/display.jsx:46-50 | next moves forward by one and is a no-op at the last question; the index stays in range |
| Display.OnPrev | src/pages/display.jsx:52-56 | prev moves back by one and is a no-op at the first question; the index stays in range |
| Display.OnJump | src/pages/display.jsx:274-277 | a grid button sets the index to its own position; nothing else changes |
| Display.OnSubmit | src/pages/display.jsx:58-61 | submit sets `finished` and `showResults` and changes nothing else |
| Display.OnRestart | src/pages/display.jsx:91-98 | restart gives index 0, an empty record, 0 seconds and all three flags false |
| Display.RestartIsFresh | src/pages/display.jsx:91-98 | restart from any state is the state a session is created with |
| Display.Render | src/pages/display.jsx:100-175 | not started ⇔ start screen (count, formatted total, first subject, first marks); started and `showResults` ⇔ results of `Score`, out of n; otherwise the question screen with number, clock and selected letter |
| Display.TimeoutKeepsQuestionScreen | src/pages/display.jsx:22-25 | the last tick finishes the exam but the question screen stays, reading `00:00`; selection still works, and submit shows the results |
| Display.Session.constructor | src/pages/display.jsx:6-11 | a session starts at index 0, empty answers, 0 seconds and all flags false |
| Display.Session.StartExam | src/pages/display.jsx:34-37 | the new state is `OnStart` of the old; the invariant is kept |
| Display.Session.Tick | src/pages/display.jsx:19-32 | the new state is `OnTick` of the old; the invariant is kept |
| Display.Session.HandleAnswerSelect | src/pages/display.jsx:39-44 | the new state is `OnSelect` of the old; the invariant is kept |
| Display.Session.NextQuestion | src/pages/display.jsx:46-50 | the new state is `OnNext` of the old; the invariant is kept |
| Display.Session.PrevQuestion | src/pages/display.jsx:52-56 | the new state is `OnPrev` of the old; the invariant is kept |
| Display.Session.JumpTo | src/pages/display.jsx:274-277 | the new state is `OnJump` of the old; the invariant is kept |
| Display.Session.SubmitExam | src/pages/display.jsx:58-61 | the new state is `OnSubmit` of the old; the invariant is kept |
| Display.Session.RestartExam | src/pages/display.jsx:91-98 | the new state is `OnRestart` of the old; the invariant is kept |
| Display.Session.Screen | src/pages/display.jsx:100-175 | not started ⇔ start screen; started with `showResults` ⇔ results screen with the score of the recorded answers; the question screen shows the current question number and the formatted clock |
| Decimal.ToDecimal | src/pages/display.jsx:88 | `toString()` of a whole number: at least one digit, no leading zero, denoting the number |
| Decimal.PadStart | src/pages/display.jsx:88 | `padStart`: length max(width, length), the original string as suffix, fill characters before it |
| Decimal.PaddedValue | src/pages/display.jsx:88 | zero-padding a numeral keeps it all digits and keeps its value |
| App.PageFor | src/App.jsx:28-84 | examples view ⇔ examples page whatever the subject; subjects view ⇔ subjects page; exam view with a subject ⇔ the exam for that subject; exam view without a subject ⇔ fallback picker |
| App.ViewAfterExamples | src/App.jsx:24-26 | back from examples goes to the exam exactly when a subject is selected, and to subjects otherwise |
| App.NoFallbackWhenCoherent | src/App.jsx:63-84 | while the exam view always has a subject, the fallback picker is never rendered |
| App.Offered | src/App.jsx:28-84 | the subjects page offers the subject picker and the examples button, the exam page only the examples button, the examples page its Back button, the fallback only the picker; no page offers `handleBackToSubjects` |
| App.Press | src/App.jsx:10-26 | picking a subject selects it and shows the exam; the examples button shows the examples; Back returns to the exam exactly when a subject is selected; neither of the last two changes the subject |
| App.Run | src/App.jsx:10-84 | a run of clicks, each taking effect only when the page on screen offers its button |
| App.NoWayBackToSubjects | src/App.jsx:15-18 | once a subject is chosen, no run of clicks shows the subjects view again or changes the subject |
| App.RunKeepsCoherent | src/App.jsx:63-84 | every run of clicks keeps the exam view supplied with a subject, so the fallback is never shown |
| App.AppState.constructor | src/App.jsx:7-8 | the app starts on the subjects view with no subject |
| App.AppState.HandleSubjectSelect | src/App.jsx:10-13 | selecting records the subject and switches to the exam view, as `Press` says |
| App.AppState.HandleBackToSubjects | src/App.jsx:15-18 | back clears the subject and shows the subjects view (no button calls it) |
| App.AppState.HandleShowExamples | src/App.jsx:20-22 | the examples view is shown and the selected subject is kept, as `Press` says |
| App.AppState.HandleBackFromExamples | src/App.jsx:24-26 | the view becomes exam if a subject is selected, subjects otherwise; the subject is kept, as `Press` says |
| App.AppState.Rendered | src/App.jsx:28-84 | the rendered page follows the precedence rule and is never the fallback in a reachable state |
| Rewrite.RunEnd | src/components/MathRenderer.jsx:12-20 | a greedy `+` run stops at the first character outside its class |
| Rewrite.MatchAt | src/components/MathRenderer.jsx:12-47 | a match consumes at least one character; a fixed string matches exactly where it occurs; `\bW\b` matches exactly at a whole-word occurrence and yields `\W` |
| Rewrite.ReplaceFrom | src/components/MathRenderer.jsx:12-47 | the global replace's scan: at each position either the rule's match is replaced and the scan resumes after it, or the character is copied |
| Rewrite.ReplaceAll | src/components/MathRenderer.jsx:12-47 | `text.replace(/…/g, …)` is the scan from the start of the text |
| Rewrite.NoMatchUnchanged | src/components/MathRenderer.jsx:10-47 | a global replace whose pattern matches nowhere returns the text unchanged |
| Rewrite.SelfReplacementUnchanged | src/components/MathRenderer.jsx:35 | replacing a fixed string by itself never changes a text |
| Rewrite.LiteralAbsent | src/components/MathRenderer.jsx:35-47 | a fixed-string rule containing a character the text lacks leaves the text unchanged |
| Rewrite.LiteralRemovesChar | src/components/MathRenderer.jsx:43 | after replacing every `*` (by text without `*`) no `*` is left |
| Rewrite.LiteralKeepsCharAbsent | src/components/MathRenderer.jsx:45-47 | a fixed-string rule whose replacement lacks a character cannot introduce it |
| Rewrite.LiteralRemovesPair | src/components/MathRenderer.jsx:45-47 | replacing a two-character operator by a replacement that cannot form it at either edge leaves no occurrence |
| Rewrite.LiteralKeepsPairAbsent | src/components/MathRenderer.jsx:45-47 | a later fixed-string rule cannot recreate an operator an earlier rule removed |
| Rewrite.FractionLeavesNoWordSlashWord | src/components/MathRenderer.jsx:18 | after the fraction rule no `/` stands between two word characters |
| Rewrite.TameScanKeepsNoWordSlashWord | src/components/MathRenderer.jsx:20-33 | a rule whose replacements cannot create word `/` word keeps a text free of it |
| Rewrite.SquareRootTame | src/components/MathRenderer.jsx:20 | the square-root rule's replacements cannot create word `/` word |
| Rewrite.WholeWordTame | src/components/MathRenderer.jsx:22-33 | a Greek whole-word rule's replacements cannot create word `/` word |
| Rewrite.NoWordSlashWordExcludes | src/components/MathRenderer.jsx:35-36 | a text free of word `/` word contains neither `m/s^2` nor `m/s2` |
| Rewrite.LiteralNotContained | src/components/MathRenderer.jsx:35-36 | a fixed string the text does not contain leaves it unchanged |
| Rewrite.ScanPrefix | src/components/MathRenderer.jsx:22-33 | where a longer text `s` has the characters of `t`, and the whole-word rule matches in `s` as in `t`, at every position of `t`, the scan of `s` is the scan of `t` followed by the scan of `s` from the end of `t` |
| Rewrite.ScanSuffix | src/components/MathRenderer.jsx:22-33 | where `s` ends with the characters of `t` from offset `k`, and the whole-word rule matches there as in `t` moved by `k`, the scan of `s` from `k + j` is the scan of `t` from `j` |
| Rewrite.WholeWordPrefixAgrees | src/components/MathRenderer.jsx:22-33 | with a non-word character at the join, `\bW\b` matches along `a` in `a + b` exactly as in `a` |
| Rewrite.WholeWordSuffixAgrees | src/components/MathRenderer.jsx:22-33 | with a non-word character at the join, `\bW\b` matches along `b` in `a + b` exactly as in `b`, moved by the length of `a` |
| Rewrite.WholeWordJunction | src/components/MathRenderer.jsx:22-33 | with a non-word character at the join, rewriting a whole word in `a + b` is rewriting `a` and `b` separately |
| Rewrite.WholeWordOnSeparator | src/components/MathRenderer.jsx:22-33 | a whole-word rule leaves a lone non-word character alone |
| Rewrite.WholeWordKeepsStartsOpen | src/components/MathRenderer.jsx:22-33 | a whole-word rule keeps a leading non-word character |
| Rewrite.WholeWordKeepsEndsOpen | src/components/MathRenderer.jsx:22-33 | a whole-word rule keeps a trailing non-word character |
| MathRenderer.ApplyRules | src/components/MathRenderer.jsx:9-48 | the chain: each rule's global replace applied to the previous rule's output, in source order |
| MathRenderer.GreekLetters | src/components/MathRenderer.jsx:22-33 | the Greek stage: each name's whole-word rule in turn, `eta` last |
| MathRenderer.Symbols | src/components/MathRenderer.jsx:39-47 | after the percent, degree, `*` and inequality rules the text has no `*`, `<=`, `>=` or `!=` |
| MathRenderer.SymbolsRemoved | src/components/MathRenderer.jsx:43-47 | the last four rules remove `*`, `<=`, `>=`, `!=` and none recreates an earlier one |
| MathRenderer.LessEqualRemoved | src/components/MathRenderer.jsx:43-45 | after the `*` and `<=` rules neither `*` nor `<=` remains |
| MathRenderer.GreaterEqualRemoved | src/components/MathRenderer.jsx:45-46 | the `>=` rule keeps `*` and `<=` absent and removes `>=` |
| MathRenderer.ConvertToLatex | src/components/MathRenderer.jsx:9-48 | the output of the whole chain contains no `*`, `<=`, `>=` or `!=` |
| MathRenderer.MathAt | src/components/MathRenderer.jsx:52 | the alternatives of the `hasMath` pattern at one position: one of its single characters, digits then `%`, `m/s`, or `sqrt` (a digit run before `%` ends in a digit followed by `%`) |
| MathRenderer.HasMathFrom | src/components/MathRenderer.jsx:52 | the scan from a position finds math exactly when some alternative of the pattern matches at or after it |
| MathRenderer.HasMath | src/components/MathRenderer.jsx:51-53 | `hasMath` holds exactly when some position starts `^`, `_`, `\`, `$`, a Greek letter, digit-then-`%`, `m/s` or `sqrt` |
| MathRenderer.DelimiterAt | src/components/MathRenderer.jsx:58 | a match the split pattern finds at a position is a `$…$` or `$$…$$` with no inner `$` |
| MathRenderer.DelimiterAtExact | src/components/MathRenderer.jsx:58 | the match found at a position is the only one there, and a match is found whenever one exists |
| MathRenderer.SplitFrom | src/components/MathRenderer.jsx:58 | text pieces and captured delimiters alternate (odd count), concatenating to the rest of the input; the pattern matches nowhere inside a text piece, and each captured piece is exactly the match found where it starts (`SplitOf`) |
| MathRenderer.SplitEnd | src/components/MathRenderer.jsx:58 | a last text piece free of matches ends the split |
| MathRenderer.SplitStep | src/components/MathRenderer.jsx:58 | emitting the text before a match and the captured match keeps the alternation and the concatenation |
| MathRenderer.SplitOfStep | src/components/MathRenderer.jsx:58 | a match-free piece, the match after it, and the split of the rest form the split |
| MathRenderer.Split | src/components/MathRenderer.jsx:58 | splitting loses nothing: the parts concatenate to the input; odd-indexed parts are the delimited matches; every leftmost match is captured and nothing else is (`SplitOf`) |
| MathRenderer.SplitOfUnique | src/components/MathRenderer.jsx:58 | a text has only one split: two part lists that both satisfy `SplitOf` are equal |
| MathRenderer.FirstPieceUnique | src/components/MathRenderer.jsx:58 | two splits of one text start with text pieces of the same length |
| MathRenderer.SplitDetermined | src/components/MathRenderer.jsx:58 | any part list satisfying `SplitOf` for a text is `Split` of that text |
| MathRenderer.FirstMatchCaptured | src/components/MathRenderer.jsx:58 | the leftmost match ends the first text piece and is the second part, whole |
| MathRenderer.SliceInner | src/components/MathRenderer.jsx:61-68 | `slice(k, -k)` strips k characters from each end, giving empty when the cuts cross |
| MathRenderer.Classify | src/components/MathRenderer.jsx:60-75 | `$$…$$` gives block math of the inside (this check comes first); `$…$` gives inline math of the inside; otherwise inline math of the part exactly when `hasMath`, else the part as plain text |
| MathRenderer.ClassifyAll | src/components/MathRenderer.jsx:60-76 | each part is classified in place, in order |
| MathRenderer.RenderMixedContent | src/components/MathRenderer.jsx:56-77 | one segment per split part, an odd number, each the classification of its part |
| MathRenderer.Render | src/components/MathRenderer.jsx:79-88 | empty input renders nothing; with `block`, one block-math segment of the whole converted text, no splitting; otherwise the mixed content |
| MathRenderer.DelimitedPartIsMath | src/components/MathRenderer.jsx:61-68 | a captured `$…$` part is inline math and a `$$…$$` part block math, of the text between the delimiters |
| MathRenderer.InlineClassified | src/components/MathRenderer.jsx:65-68 | a part with single `$` at both ends is inline math of its inside |
| MathRenderer.DelimitedSegmentsAreMath | src/components/MathRenderer.jsx:58-68 | every odd-indexed segment of mixed content is math of the text between its part's delimiters |
| MathRenderer.FirstFormulaRendered | src/components/MathRenderer.jsx:56-77 | in any text, the text before the first `$…$` or `$$…$$` is the first part, and the formula becomes inline or block math of what lies between its delimiters |
| MathRenderer.CapturedMatchIsMath | src/components/MathRenderer.jsx:61-68 | the text a match spans is classified as math of the text between its delimiters |
| MathRenderer.SingleFormulaSplit | src/components/MathRenderer.jsx:58 | `$x$` with no `$` in x splits into an empty text, the formula, and an empty text |
| MathRenderer.SingleFormulaRender | src/components/MathRenderer.jsx:56-77 | `$x$` renders as an empty span, inline math of `convertToLatex(x)`, an empty span |
| MathRenderer.FormulaClassified | src/components/MathRenderer.jsx:65-68 | `$x$` is classified as inline math of `convertToLatex(x)` |
| MathRenderer.EmptyPartPlain | src/components/MathRenderer.jsx:72-74 | an empty part becomes an empty plain span |
| MathRenderer.ShorthandIdleOnLetters | src/components/MathRenderer.jsx:12-20 | a word of letters is unchanged by the superscript, subscript, fraction and root rules |
| MathRenderer.OtherWordNoMatch | src/components/MathRenderer.jsx:22-33 | in a word of letters, the whole-word rule of a different word matches nowhere |
| MathRenderer.OtherWordNoMatchInCommand | src/components/MathRenderer.jsx:22-33 | in `\` + word, the whole-word rule of a different word matches nowhere |
| MathRenderer.WordBecomesCommand | src/components/MathRenderer.jsx:22-33 | a whole-word rule turns a text that is exactly its word into `\` + word |
| MathRenderer.GreekStageOnName | src/components/MathRenderer.jsx:22-33 | the Greek stage turns a text that is one of its distinct names into that name's command |
| MathRenderer.GreekStageIdleOnCommand | src/components/MathRenderer.jsx:22-33 | later Greek rules leave a command of another name alone (`\beta` is not hit by `eta`) |
| MathRenderer.UnitsIdleOnCommand | src/components/MathRenderer.jsx:35-37 | the unit rules leave a command of letters alone |
| MathRenderer.SymbolsIdleOnCommand | src/components/MathRenderer.jsx:39-47 | the symbol rules leave a command of letters alone |
| MathRenderer.GreekNamesAreWords | src/components/MathRenderer.jsx:22-33 | the twelve Greek names are distinct words of letters |
| MathRenderer.GreekNameBecomesCommand | src/components/MathRenderer.jsx:22-33 | `convertToLatex` of a Greek name is the backslash command of that name |
| MathRenderer.OtherWordIdle | src/components/MathRenderer.jsx:22-33 | the whole-word rule of another word leaves a word of letters unchanged |
| MathRenderer.OtherWordIdleOnCommand | src/components/MathRenderer.jsx:22-33 | the whole-word rule of another word leaves `\` + word unchanged |
| MathRenderer.WholeWordInText | src/components/MathRenderer.jsx:22-33 | a word standing between non-word characters (or the text's edges) becomes its command, and the text on each side is rewritten on its own |
| MathRenderer.OtherWordInText | src/components/MathRenderer.jsx:22-33 | another word's rule leaves such a word in place, rewrites each side on its own, and keeps the non-word characters next to the word |
| MathRenderer.OtherWordAroundCommand | src/components/MathRenderer.jsx:22-33 | another word's rule leaves a command in a text in place and rewrites each side on its own |
| MathRenderer.GreekStageAroundCommand | src/components/MathRenderer.jsx:22-33 | the remaining Greek rules leave a command of an earlier name in place inside a text |
| MathRenderer.GreekStageInText | src/components/MathRenderer.jsx:22-33 | for distinct names of letters, the stage turns a name standing as a whole word in a text into its command and rewrites each side on its own |
| MathRenderer.GreekNameInText | src/components/MathRenderer.jsx:22-33 | in the source's Greek stage, a Greek name standing as a whole word anywhere in a text (`2 pi r`) becomes its command (`2 \pi r`); a name inside a longer word is not a whole word |
| MathRenderer.UnitSelfRuleIdle | src/components/MathRenderer.jsx:35 | the `m/s^2` rule replaces its match by itself, so it never changes a text |
| MathRenderer.ShorthandLeavesNoWordSlashWord | src/components/MathRenderer.jsx:12-20 | after the superscript, subscript, fraction and root rules no `/` stands between word characters |
| MathRenderer.GreekKeepsNoWordSlashWord | src/components/MathRenderer.jsx:22-33 | the Greek rules keep that property |
| MathRenderer.UnitRulesNeverFire | src/components/MathRenderer.jsx:35-37 | what reaches the unit rules contains neither `m/s^2` nor `m/s2`, so only the `ms^-2` rule can act |
| MathRenderer.UnitRulesOnClean | src/components/MathRenderer.jsx:35-37 | on a text free of word `/` word, the three unit rules act as the `ms^-2` rule alone |

## Left out

- Display.Score: the `percentage` field is not modelled. It is `((correct / n) * 100).toFixed(1)`, floating-point formatting. The three counts and the total marks are modelled exactly.
- MathRenderer.GreekNameInText: stated for the Greek stage of the chain. Through the whole of `convertToLatex`, the rules before and after that stage may also rewrite the text around the name. The model computes that, but no lemma states it for arbitrary surrounding text.
- Display.Question: `duration` is a natural number and `qid` an integer. The source takes whatever the JSON holds, and JavaScript object keys are strings, so ids `1` and `"1"` would collide there. JavaScript numbers are doubles; the model's integers are unbounded.
- Display.Session.Tick: this models one run of the interval callback, guarded by the arming condition. `setInterval`, `clearInterval` and the effect re-arming on every state change are wall-clock timing and are not modelled, and neither is the one-timer-at-a-time discipline.
- Display.Session.JumpTo: requires an index of an existing question, because the grid renders exactly one button per question.
- Question loading: `datas.json` is the constructor's parameter. `Display` reads it directly and ignores the `questionsData` prop that App passes; the model keeps the two apart (`App.Subject.questions` is never read by `Display`).
- Markup: all JSX markup, styling, the red colour under 60 seconds and the progress-bar width (a floating-point percentage) are presentation and are not modelled. Screens are modelled only by the values they show.
- Answer letters: answers are one of the four letters the option buttons pass (`Display.Choice`). The source stores any string a caller hands it, but only these buttons call it.
- MathRenderer.Render: the input is a string. `String(children)` coercion of non-string children and `!children` for values other than the empty string are not modelled. Typesetting by KaTeX and the `try`/`catch` fallback, which only reacts to KaTeX exceptions, are not modelled either; a segment carries the LaTeX that would be typeset.
- src/components/SubjectSelector.jsx and src/components/MathExamples.jsx are not part of this model. They hold a hard-coded catalogue, a loading delay, a dynamic import and static example strings.
- Characters are Unicode code points, where JavaScript strings are UTF-16 code units. All characters the patterns name are in the Basic Multilingual Plane, so the two agree on them.
