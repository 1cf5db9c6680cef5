# AWS exam simulator: parser, validator and exam session in Dafny

This project models the core of a practice-exam web application and proves its
properties. The model covers four parts:

- **The markdown parser** (`parseMarkdownContent`). It makes one forward pass
  over the lines of an exam file:
  - a numbered header line opens a question;
  - `- X.` lines add options;
  - a `Correct Answer:` line sets the answer letters;
  - an `Explanation:` line starts collecting explanation lines until a blank
    line or the next question.
  
  Questions are pushed only when they are complete. The pure `Step` function
  (one loop iteration) and `Parse` (the whole pass) specify the imperative
  loop `ParseMarkdownContent`. The loop is proved to compute `Parse`.
- **The exam-file validator** (`scripts/validate-exams.js`).
  - It picks the `json` files of a directory, except two excluded names.
  - For each file it strips whitespace and a byte-order mark, decodes the JSON,
    and checks every question in order.
  - The checks are: required raw fields; a sanitised-key view `cleanQ`; an
    explanation at least five UTF-16 units long; a non-empty answer list; every
    answer among the option letters.
  - It reports the first failure of each file and exits with status 1 if any
    file failed.
  
  Decoded JSON is a `Json` datatype carrying JavaScript truthiness, `===` and
  the `TypeError`s the script would throw. An object keeps its entries as
  written. As in the object `JSON.parse` builds, a repeated key reads its
  last value, and `Object.keys` lists it at its first entry. The loops that
  build `cleanQ`, walk the questions and walk the files are methods, proved
  against functions.
- **The exam session** (`ExamContext.tsx`):
  - loading an exam, with questions and options shuffled in test mode;
  - recording answers and the countdown;
  - grading, with a new attempt put in front of the history.
  
  `shuffleArray` is an in-place Fisher–Yates pass over an array copy. It is
  proved to keep the multiset of elements.
- **One question on screen** (`Question.tsx`):
  - how a click changes the selection (toggle for multiple choice, replace for
    single choice);
  - which options are highlighted in study mode;
  - the verdict shown under the question.

A last module ties the parser to the validator. A parsed exam is written out
the way the converter (`scripts/convertExams.ts`) lays it out with
`JSON.stringify`, then read back by the validator. It passes exactly when every
question has an explanation of at least five UTF-16 units and every correct
answer names one of its options.

Files:

| file | module | contents |
|---|---|---|
| `wrappers.dfy` | `Wrappers` | `Option` |
| `seqs.dfy` | `Seqs` | subsequences, mapping over sequences |
| `text.dfy` | `Text` | JavaScript string primitives: `\s`, `trim`, `split`/`join`, ASCII case folding, `parseInt`, UTF-16 length |
| `parse_markdown.dfy` | `ParseMarkdown` | parser types, line patterns, `Step`/`Parse`, the imperative parser |
| `parse_markdown_proofs.dfy` | `ParseMarkdownProofs` | well-formed output; questions follow the headers |
| `parse_markdown_lines.dfy` | `ParseMarkdownLines` | pattern exclusivity; what one line does |
| `validate_exams.dfy` | `ValidateExams` | the validator |
| `exam_context.dfy` | `ExamContext` | loading, answering, the countdown, grading, finishing |
| `question_view.dfy` | `QuestionView` | selection, highlighting, verdict |
| `parsed_exam_validation.dfy` | `ParsedExamValidation` | parser output read back by the validator |

Where the behaviour of the code differs from what one might expect, the model
follows the code:

- After a blank line closes an explanation, the explanation buffer is not
  cleared. Only a flush clears it, so a second `Explanation:` block for the
  same question re-joins the earlier lines with the new ones.
- A header line does not look at explanation mode. An explanation still being
  collected when the next header arrives is dropped, because the flush resets
  the buffer before the buffer is joined (`HeaderDiscardsExplanation`).
- In explanation mode, a line matching `^\d+\.\s+` that is not a header also
  closes the explanation and flushes. This happens only when the line holds a
  line terminator other than `\n`, such as `\r` (`NearHeader`).
- `trim()` already removes U+FEFF, so the byte-order-mark `replace` in the
  validator changes nothing (`PreprocessIsTrim`).
- Grading does not remove repeated letters. The rule is "as many selected as
  correct, each correct one among them". It is a multiset match only when the
  correct answers have no repeats (`DistinctGrading`, `RepeatedCorrectAnswer`).
- An option whose correct letter is also selected is green, never red. A
  recorded empty selection still counts as answered for highlighting and the
  verdict.

## Model

| member | source | states |
|---|---|---|
| ParseMarkdown.ParseMarkdownContent | src/utils/parseMarkdown.ts:21-117 | the loop over the split lines, followed by the final flush, returns `Parse(content, title)`, titled "Untitled Exam" when no title is given |
| ParseMarkdown.Parse | src/utils/parseMarkdown.ts:21-117 | the parse returns at most one question per line of the input |
| ParseMarkdown.Run | src/utils/parseMarkdown.ts:50-106 | after any number of lines, the questions pushed plus the one still open number at most the lines read |
| ParseMarkdown.Step | src/utils/parseMarkdown.ts:50-105 | a line never takes back a pushed question, and it pushes or opens at most one more |
| ParseMarkdown.Flush | src/utils/parseMarkdown.ts:29-48 | `flushQuestion` keeps the pushed questions and pushes one more iff the draft has a truthy id and text and some option and answer, and the one it pushes is that draft's question (id, text, options, answers, explanation, `multiple`); the draft, explanation mode and buffer start afresh |
| ParseMarkdown.Finish | src/utils/parseMarkdown.ts:108-114 | the final flush keeps the pushed questions and adds at most the open one |
| ParseMarkdownLines.FinishLine | src/utils/parseMarkdown.ts:108-114 | the result is the pushed questions followed by the open draft's question exactly when that draft is complete, after the buffer is joined into its explanation if explanation mode is still on |
| ParseMarkdown.MatchHeader | src/utils/parseMarkdown.ts:54 | a header line also passes the near-header test of lines 95 and 99; its number is a non-empty digit run and its prompt holds no line terminator (the full pattern is characterised by the two lemmas below) |
| ParseMarkdownLines.HeaderPatternSound | src/utils/parseMarkdown.ts:54 | a matched line is exactly the captured digit run, a dot, a non-empty whitespace run and the captured prompt, which starts with no whitespace and holds no line terminator |
| ParseMarkdownLines.HeaderPatternComplete | src/utils/parseMarkdown.ts:54 | every line of that shape matches, capturing that digit run and that prompt |
| ParseMarkdown.MatchCorrectAnswer | src/utils/parseMarkdown.ts:78 | the captured list is the end of the line, starts with no whitespace and holds no line terminator (the full pattern is characterised by the two lemmas below) |
| ParseMarkdownLines.AnswerPatternSound | src/utils/parseMarkdown.ts:78 | a matched line is exactly whitespace, `Correct` in any ASCII case, whitespace, `Answer:` in any ASCII case, whitespace and the captured list, which starts with no whitespace and holds no line terminator |
| ParseMarkdownLines.AnswerPatternComplete | src/utils/parseMarkdown.ts:78 | every line of that shape matches, capturing that list |
| ParseMarkdown.ParseLine | src/utils/parseMarkdown.ts:50-105 | one pass of the loop body transforms the locals exactly as one `Step` |
| ParseMarkdown.RunExtends | src/utils/parseMarkdown.ts:50-106 | processing one more line is one more `Step` on the state so far |
| ParseMarkdown.MatchOption | src/utils/parseMarkdown.ts:69 | a matched option letter is an ASCII letter (the full pattern is characterised by the two lemmas below) |
| ParseMarkdownLines.OptionPatternSound | src/utils/parseMarkdown.ts:69 | a matched line is exactly whitespace, a dash, whitespace, the captured ASCII letter, a dot, a non-empty whitespace run and the captured text, which starts with no whitespace and holds no line terminator |
| ParseMarkdownLines.OptionPatternComplete | src/utils/parseMarkdown.ts:69 | every line of that shape matches, capturing that letter and that text |
| ParseMarkdown.AnswerList | src/utils/parseMarkdown.ts:80-82 | the answer list always has at least one entry |
| ParseMarkdownProofs.ParseEmitsWellFormed | src/utils/parseMarkdown.ts:21-117 | every question returned is well formed: positive id; non-empty trimmed text; at least one option, each one upper-case letter with trimmed text; at least one answer, each trimmed with no lower-case ASCII letter; trimmed explanation; `multiple` iff the text contains "(Choose TWO)" in any case |
| ParseMarkdownProofs.RunKeepsInv | src/utils/parseMarkdown.ts:50-106 | the parser-state invariant holds after any number of lines |
| ParseMarkdownProofs.StepKeepsInv | src/utils/parseMarkdown.ts:50-105 | one line of any kind keeps the parser-state invariant |
| ParseMarkdownProofs.StepHeaderKeepsInv | src/utils/parseMarkdown.ts:54-66 | a header line keeps the invariant |
| ParseMarkdownProofs.StepOptionKeepsInv | src/utils/parseMarkdown.ts:69-75 | an option line keeps the invariant |
| ParseMarkdownProofs.StepAnswerKeepsInv | src/utils/parseMarkdown.ts:78-84 | an answer line keeps the invariant |
| ParseMarkdownProofs.StepExplanationKeepsInv | src/utils/parseMarkdown.ts:93-105 | an explanation line keeps the invariant |
| ParseMarkdownProofs.CloseKeepsInv | src/utils/parseMarkdown.ts:96 | the joined and trimmed buffer is a trimmed explanation |
| ParseMarkdownProofs.FlushKeepsInv | src/utils/parseMarkdown.ts:29-48 | `flushQuestion` keeps the invariant |
| ParseMarkdownProofs.EmitWellFormed | src/utils/parseMarkdown.ts:36-43 | the record pushed for a complete draft is well formed |
| ParseMarkdownProofs.FinishWellFormed | src/utils/parseMarkdown.ts:109-114 | after the final flush every question is well formed |
| ParseMarkdownProofs.HeaderPromptTrimmed | src/utils/parseMarkdown.ts:51-58 | a header's captured prompt, taken from a `trimEnd`-ed line, is non-empty and already trimmed |
| ParseMarkdownProofs.AnswerListNormal | src/utils/parseMarkdown.ts:80-82 | every recorded answer is trimmed and has no lower-case ASCII letter |
| ParseMarkdownProofs.OptionChoiceNormal | src/utils/parseMarkdown.ts:71-73 | a recorded option has one upper-case letter and trimmed text |
| ParseMarkdownProofs.ZeroHeaderNeverEmitted | src/utils/parseMarkdown.ts:30-35 | a header numbered with zeros only gives the falsy id 0, so no question carries that id |
| ParseMarkdownProofs.FlushKeepsOrder | src/utils/parseMarkdown.ts:29-48 | flushing keeps the emitted (id, text) keys a subsequence of the headers seen |
| ParseMarkdownProofs.StepHeaderOrder | src/utils/parseMarkdown.ts:54-66 | a header line adds at most its own key, after the earlier ones |
| ParseMarkdownProofs.StepEditKeepsKeys | src/utils/parseMarkdown.ts:69-84 | option and answer lines never change a draft's id or text |
| ParseMarkdownProofs.StepExplanationOrder | src/utils/parseMarkdown.ts:86-105 | explanation lines add no key |
| ParseMarkdownProofs.StepKeepsOrder | src/utils/parseMarkdown.ts:50-105 | after any line, the pending keys are a subsequence of the header keys seen so far |
| ParseMarkdownProofs.RunKeepsOrder | src/utils/parseMarkdown.ts:50-106 | after all lines, the pending keys are a subsequence of the header keys |
| ParseMarkdownProofs.ParseFollowsHeaders | src/utils/parseMarkdown.ts:21-117 | the returned questions' (id, text) pairs are a subsequence of the header lines' pairs, in file order, so there are never more questions than headers |
| ParseMarkdownLines.EmptyAnswerList | src/utils/parseMarkdown.ts:78-82 | `Correct Answer:` with nothing after it matches with the empty capture, which records the single answer "" |
| ParseMarkdownLines.PatternsExclusive | src/utils/parseMarkdown.ts:54-84 | an option line is never a header, and an answer line is neither a header nor an option, so the branch order hides none of them |
| ParseMarkdownLines.NearHeader | src/utils/parseMarkdown.ts:95-101 | every header passes the "next question" test; a non-header passes it only if it holds a line terminator |
| ParseMarkdownLines.HeaderLine | src/utils/parseMarkdown.ts:54-66 | a header emits the draft iff it is complete, resets explanation mode, the buffer and the explanation, and opens a draft with no options or answers |
| ParseMarkdownLines.HeaderDiscardsExplanation | src/utils/parseMarkdown.ts:54-66 | the result of a header line does not depend on explanation mode or the buffer |
| ParseMarkdownLines.OptionLine | src/utils/parseMarkdown.ts:69-75 | an option line after a header appends one normal option with the upper-cased letter and trimmed text, and changes nothing else |
| ParseMarkdownLines.AnswerLineReplaces | src/utils/parseMarkdown.ts:78-84 | an answer line after a header replaces the answer list whatever it held, and changes nothing else |
| ParseMarkdownLines.OptionAndAnswerNotExplained | src/utils/parseMarkdown.ts:68-84 | option and answer lines after a header never touch the explanation, the buffer or explanation mode |
| ParseMarkdownLines.ExplanationSetOnlyOnBlankLine | src/utils/parseMarkdown.ts:93-101 | a line that sets a new explanation is a blank line in explanation mode, and the explanation is the joined buffer |
| ParseMarkdownLines.BulletStrippedTrimmed | src/utils/parseMarkdown.ts:103 | a buffered explanation line has no surrounding whitespace |
| ParseMarkdownLines.BufferGrowsOnlyInExplanation | src/utils/parseMarkdown.ts:93-105 | the buffer is kept, emptied, or, in explanation mode only, grows by one bullet-stripped line |
| Text.TrimSpec | src/utils/parseMarkdown.ts:58 | `trim` returns the part of the string between its leading and trailing whitespace runs, and neither end is whitespace |
| Text.TrimIsTrimmed | src/utils/parseMarkdown.ts:58 | the result of `trim` neither starts nor ends with whitespace |
| Text.TrimIdempotent | src/utils/parseMarkdown.ts:38 | trimming twice is trimming once |
| Text.TrimOfTrimmed | src/utils/parseMarkdown.ts:38 | trimming a trimmed string changes nothing |
| Text.UpperKeepsTrimmed | src/utils/parseMarkdown.ts:82 | upper-casing keeps a trimmed string trimmed |
| Text.ToUpperAscii | src/utils/parseMarkdown.ts:82 | the upper-cased string has the same length, no lower-case ASCII letter, equals the input ignoring case at every position, and keeps every character that is not a lower-case ASCII letter |
| Text.ToUpperIdempotent | src/utils/parseMarkdown.ts:82 | upper-casing twice is upper-casing once |
| Text.JoinSplit | src/utils/parseMarkdown.ts:22 | joining the pieces of a split with the separator gives back the string |
| Text.SplitJoin | src/utils/parseMarkdown.ts:22 | splitting a join of separator-free pieces gives back the pieces |
| Text.Split | src/utils/parseMarkdown.ts:22 | a split has at least one piece and no piece holds the separator |
| Text.ParseDecimalZero | src/utils/parseMarkdown.ts:57 | a run of digits parses to 0 iff every digit is '0' |
| Text.Utf16Length | scripts/validate-exams.js:54 | a string's `length` lies between its number of characters and twice that |
| ValidateExams.GetAbsent | scripts/validate-exams.js:42-44 | a property reads as absent iff no entry has that key |
| ValidateExams.GetLast | scripts/validate-exams.js:42-44 | a present property reads the value of the last entry with that key |
| ValidateExams.SanitizeAppend | scripts/validate-exams.js:31 | removing non-word characters distributes over concatenation |
| ValidateExams.SanitizeChar | scripts/validate-exams.js:31 | a single character survives iff it is in `[A-Za-z0-9_]` |
| ValidateExams.SanitizeWordChars | scripts/validate-exams.js:31 | a sanitised key holds only word characters |
| ValidateExams.SanitizeSubseq | scripts/validate-exams.js:31 | a sanitised key keeps the order of the key's characters |
| ValidateExams.SanitizeKeepsWords | scripts/validate-exams.js:31 | a key of word characters is its own sanitised form |
| ValidateExams.ObjectKeysPresent | scripts/validate-exams.js:30 | `Object.keys` lists a key iff reading it gives a value |
| ValidateExams.ObjectKeysDistinct | scripts/validate-exams.js:30 | `Object.keys` lists no key twice |
| ValidateExams.ObjectKeysPrefix | scripts/validate-exams.js:30 | a key keeps the position of its first entry: the keys of any prefix of the text come first, in the same order |
| ValidateExams.BuildCleanView | scripts/validate-exams.js:29-33 | the loop over `Object.keys(q)` builds the sanitised view |
| ValidateExams.CleanViewKeys | scripts/validate-exams.js:29-33 | a sanitised key is in `cleanQ` iff some raw key sanitises to it |
| ValidateExams.CleanViewLast | scripts/validate-exams.js:29-33 | a sanitised key holds the value `q[key]` reads for the last key, in `Object.keys` order, that sanitises to it |
| ValidateExams.RepeatedKeyKeepsFirstPosition | scripts/validate-exams.js:21-33 | for the entries `a`, `b`, `a` with `a` and `b` sanitising alike, `cleanQ` holds `b`'s value: a repeated key stays at its first position |
| ValidateExams.CleanViewOfCleanKeys | scripts/validate-exams.js:29-33 | when no raw key changes under sanitising, `cleanQ[key]` reads the same as `q[key]` |
| ValidateExams.MissingSpec | scripts/validate-exams.js:41-44 | the missing-field list names exactly the falsy required fields, in the order question, options, correctAnswers |
| ValidateExams.FoundResolves | scripts/validate-exams.js:62 | when `find` succeeds, an option with the answer's letter is reached without passing a `null` option |
| ValidateExams.ResolvesFound | scripts/validate-exams.js:62 | when such an option exists, `find` succeeds |
| ValidateExams.FindInSpec | scripts/validate-exams.js:62 | `find` succeeds iff such an option exists |
| ValidateExams.CheckAnswersPass | scripts/validate-exams.js:61-65 | the answers pass iff the search succeeds for each of them |
| ValidateExams.CheckAnswersFailure | scripts/validate-exams.js:61-65 | a failure comes from the first answer whose search fails: a `TypeError` if the search threw, else that answer is reported |
| ValidateExams.CheckAnswersSpec | scripts/validate-exams.js:61-65 | both of the above together |
| ValidateExams.CheckAnswersRef | scripts/validate-exams.js:61-65 | apart from a thrown search, a failure names the question's own reference |
| ValidateExams.PassedIsAccepted | scripts/validate-exams.js:41-65 | a question that passes the checks meets every acceptance condition |
| ValidateExams.AcceptedPasses | scripts/validate-exams.js:41-65 | a question meeting every acceptance condition passes the checks |
| ValidateExams.CheckQuestionSpec | scripts/validate-exams.js:41-65 | a question passes iff it meets the acceptance conditions, which are stated without the order of the checks |
| ValidateExams.FailureOrder | scripts/validate-exams.js:46-65 | each kind of failure implies that every earlier check passed (for an unknown answer: no field missing, a present question, a string explanation of at least five UTF-16 units once trimmed, and a non-empty answer array holding that answer); a missing-field failure happens iff a required raw field is falsy |
| ValidateExams.ReferenceRule | scripts/validate-exams.js:35 | a failure names the question by its sanitised `id` iff that is truthy, otherwise by its 1-based position |
| ValidateExams.FirstFailureSpec | scripts/validate-exams.js:28-66 | a document passes iff every question passes; otherwise it reports the failure of the first failing question |
| ValidateExams.PreprocessIsTrim | scripts/validate-exams.js:19 | trim, remove the byte-order mark, trim is the same as one trim |
| ValidateExams.ValidateQuestion | scripts/validate-exams.js:28-66 | the body of the loop over questions gives that question's outcome |
| ValidateExams.ValidateQuestions | scripts/validate-exams.js:28-66 | the loop over questions stops at, and reports, the first failure |
| ValidateExams.ValidateDocument | scripts/validate-exams.js:18-66 | a file that does not decode reports a decode error; a `questions` field that is not an array reports a `TypeError`; otherwise the first question failure is reported |
| ValidateExams.SelectFilesMembers | scripts/validate-exams.js:10-12 | exactly the listed names ending in "json", other than the two excluded ones, are checked |
| ValidateExams.SelectFilesOrder | scripts/validate-exams.js:10-12 | the checked files keep the listing's order |
| ValidateExams.ValidateFiles | scripts/validate-exams.js:10-75 | every selected file is checked in order with its failure reported; `hasError` is set iff some selected file fails; the exit status is 1 iff it is set |
| ValidateExams.ReportsNext | scripts/validate-exams.js:69-72 | the reports of one more file are the earlier reports plus that file's failure, if it has one |
| ValidateExams.ReportsNonEmpty | scripts/validate-exams.js:69-75 | some file is reported iff some selected file fails |
| ExamContext.ShuffleArray | src/context/ExamContext.tsx:44-51 | the shuffled copy has the input's length and the same elements, each as often |
| ExamContext.ShuffleOptions | src/context/ExamContext.tsx:72-75 | each question keeps everything but the order of its options, and keeps the same options |
| ExamContext.LoadExam | src/context/ExamContext.tsx:65-79 | the loaded exam keeps the title, starts with no answers, the start time and one hour left; study mode keeps the questions as they were; test mode keeps the same questions, each as often, each with the same options |
| ExamContext.AnswerQuestion | src/context/ExamContext.tsx:121-127 | with an exam loaded, the question's selection is replaced and every other answer and field is unchanged; without one nothing happens |
| ExamContext.SetTimeLeft | src/context/ExamContext.tsx:117-119 | only the countdown changes, and a missing exam stays missing |
| ExamContext.CorrectCount | src/context/ExamContext.tsx:132-138 | the number of correct questions is at most the number of questions |
| ExamContext.CorrectCountAll | src/context/ExamContext.tsx:132-138 | every question counts iff every question is correct |
| ExamContext.CorrectCountNone | src/context/ExamContext.tsx:132-138 | no question counts iff no question is correct |
| ExamContext.UnansweredQuestion | src/context/ExamContext.tsx:133 | an unanswered question is correct only if it has no correct answers |
| ExamContext.DistinctGrading | src/context/ExamContext.tsx:134-137 | with no repeated correct answer, a question is correct iff the selection holds the correct answers, each once, in any order |
| ExamContext.RepeatedCorrectAnswer | src/context/ExamContext.tsx:134-137 | with a repeated correct answer, a selection that is not a multiset match can still be graded correct |
| ExamContext.AnswerKeepsOtherGrades | src/context/ExamContext.tsx:123 | answering one question does not change the grading of a question with another id |
| ExamContext.FinishExam | src/context/ExamContext.tsx:129-163 | without an exam, zero of zero and the history untouched; with one, the total is the number of questions, the correct count is `CorrectCount` of the questions and answers (at most the total), and the new attempt (graded answers and questions) is put in front of the history |
| QuestionView.WithoutCounts | src/components/Question.tsx:17 | filtering removes every copy of the clicked letter and keeps every other letter as often as it was |
| QuestionView.WithoutOrder | src/components/Question.tsx:17 | filtering keeps the order of the letters it keeps |
| QuestionView.WithoutAbsent | src/components/Question.tsx:17 | filtering out an absent letter changes nothing |
| QuestionView.NextSelection | src/components/Question.tsx:16-20 | a multiple-choice click makes the clicked letter selected iff it was not, keeps every other letter as often as it was, and appends a new letter after the old selection; a single-choice click leaves the clicked letter alone, once |
| QuestionView.ToggleOff | src/components/Question.tsx:17 | clicking a selected letter in a multiple-choice question removes all its copies and keeps the others in order and number |
| QuestionView.ToggleTwice | src/components/Question.tsx:17 | clicking an unselected letter twice restores the selection |
| QuestionView.HandleChange | src/components/Question.tsx:13-22 | with an exam loaded, the question's selection becomes the next selection (from empty when unanswered) and nothing else changes; without one nothing happens |
| QuestionView.ClickFlipsOneBox | src/components/Question.tsx:24 | a multiple-choice click flips the clicked letter's checkbox and no other |
| QuestionView.RadioShowsClick | src/components/Question.tsx:80 | after a single-choice click the radio group shows the clicked letter |
| QuestionView.VerdictMatchesGrading | src/components/Question.tsx:96-110 | the study-mode verdict is the scoring rule used when the exam is finished |
| QuestionView.StyleRule | src/components/Question.tsx:26-41 | a shown highlight is green iff the letter is correct, and red iff it is selected but wrong |
| QuestionView.NoStyleUnlessShown | src/components/Question.tsx:27 | outside study mode or before an answer, nothing is highlighted and no verdict is shown |
| QuestionView.CorrectVerdictHasNoRed | src/components/Question.tsx:96-110 | with no repeated correct answer, a green verdict leaves no option red |
| ParsedExamValidation.ChoiceHasLetter | scripts/validate-exams.js:62 | an encoded option matches an answer iff its letter is the answer |
| ParsedExamValidation.ResolvesEncoded | scripts/validate-exams.js:62 | `find` over encoded options succeeds iff some option has the answer's letter |
| ParsedExamValidation.EncodedView | scripts/validate-exams.js:29-33 | the encoded record's keys are clean, so `cleanQ` reads its own fields |
| ParsedExamValidation.EncodedFields | src/utils/parseMarkdown.ts:36-43 | each field of an encoded question reads back as written |
| ParsedExamValidation.ParsedQuestionAccepted | scripts/validate-exams.js:41-65 | a well-formed parsed question meets the validator's conditions iff its explanation has at least five UTF-16 units and every answer names an option |
| ParsedExamValidation.ParsedQuestionChecked | scripts/validate-exams.js:41-65 | a well-formed parsed question passes the checks under the same condition |
| ParsedExamValidation.EncodedExamQuestions | scripts/validate-exams.js:28 | the validator finds the encoded questions as an array |
| ParsedExamValidation.EncodedExamChecked | scripts/validate-exams.js:28-66 | an exam of well-formed questions passes iff each question meets that condition |
| ParsedExamValidation.ParsedExamChecked | scripts/convertExams.ts:17-29 | an exam parsed from markdown and written out by the converter passes the validator iff each of its questions has a long enough explanation and answers naming its options |

## Left out

- File and network I/O are parameters or absent. The fetched exam and the
  directory listing are inputs, and `JSON.parse` is the `decode` parameter
  (the decoder itself is not modelled). `localStorage` is not modelled: the
  saved-exam restore and its effect, `answerQuestion`'s per-title write, and
  the stored history. The history is passed in and returned by `FinishExam`.
  Console output and message strings are also left out; failures are a
  datatype.
- `Date.now`, `toLocaleString` and `Math.random` are inputs. The random index
  of the shuffle is an arbitrary `j` between 0 and `i`.
- ExamContext.FinishExam: does not compute the score percentage
  (floating-point division, `NaN` for an empty exam, `Math.round`). It also
  does not model removing the stored current exam; the in-memory exam stays
  loaded, as in the code.
- `loadRandomMock` and `getHistory` are not modelled: they are random
  sampling and storage reads outside the scoring rules. The rendering of
  components, `parseMarkdownFile` (a file read) and the other pages are not
  part of this model.
- Upper-casing is ASCII only. A non-ASCII lower-case letter in an answer
  list is kept as written, while `toUpperCase` would convert it.
- JSON numbers are reals without double rounding. Lone surrogates in
  strings are not modelled. `__proto__` keys are not modelled.
- ObjectKeys: lists every key at its first entry. JavaScript lists
  integer-like keys ("0", "17") first, in ascending order. Such keys sanitise
  to digits only, so only a `cleanQ` entry with a digits-only name can
  differ, and the validator reads none.
- CleanViewLast: the `Object.keys` order it speaks of is `ObjectKeys`, so
  it has the same limit for digits-only names.
- ParseDecimal: header numbers are unbounded naturals. `parseInt` returns a
  double, so an id of 2^53 or more is rounded, and one of about 309 digits
  or more is `Infinity`, which `JSON.stringify` writes as `null`. Whether a
  question is pushed does not change, because only zero against non-zero
  matters there. The id it carries, and the keys `ParseFollowsHeaders`
  compares, differ for such headers.
- MatchHeader, MatchOption, MatchCorrectAnswer: the regular-expression
  engine itself is not modelled. Each pattern is written as the character
  tests it amounts to, and the `...PatternSound`/`...PatternComplete` lemmas
  state exactly which lines it matches and what it captures. The `i` flag
  folds ASCII letters only, as it does in JavaScript without the `u` flag.
- `Text.DigitValue` returns 0 for a non-digit; the callers only pass digits.
- Stale React closures are not modelled: each handler sees the current exam.
