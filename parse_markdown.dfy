/**
 * The markdown exam parser: one forward pass over the lines of an exam file,
 * building questions in a `currentQuestion` accumulator, with an
 * `inExplanation` flag and an explanation-line buffer.
 *
 * The line patterns are written out as character predicates:
 *   header       ^(\d+)\.\s+(.*)$
 *   option       ^\s*-\s*([A-Z])\.\s+(.*)$          (case-insensitive)
 *   answer       ^\s*Correct\s*Answer:\s*(.*)$      (case-insensitive)
 *   explanation  ^\s*Explanation:                   (case-insensitive)
 *   near-header  ^\d+\.\s+
 * `\s` is `IsWhiteSpace`, `.` is any character but a line terminator, and the
 * greedy `\s+` / `\s*` runs take the longest whitespace run (backtracking to
 * a shorter run can never rescue a failed `(.*)$`).
 *
 * `Step` is one iteration of the loop and `Parse` the whole pass;
 * `ParseMarkdownContent` is the loop itself, proved to compute `Parse`.
 */
module ParseMarkdown {
  import opened Wrappers
  import opened Text

  /** One answer option: `letter` is the upper-cased option letter. */
  datatype Choice = Choice(letter: string, text: string)

  datatype Question = Question(
    id: int,
    question: string,
    options: seq<Choice>,
    correctAnswers: seq<string>,
    explanation: string,
    multiple: bool)

  datatype Exam = Exam(title: string, questions: seq<Question>)

  const DefaultTitle := "Untitled Exam"

  /** The marker that makes a question multiple-choice. */
  const ChooseTwo := "(Choose TWO)"

  // ---------------------------------------------------------------- line patterns

  /** The two groups captured by the header pattern. */
  datatype HeaderMatch = HeaderMatch(digits: string, prompt: string)

  /** The two groups captured by the option pattern. */
  datatype OptionMatch = OptionMatch(letter: char, text: string)

  /**
   * `^(\d+)\.\s+(.*)$`: a header also passes the weaker near-header test;
   * its number is a non-empty run of digits and its prompt holds no line
   * terminator.
   */
  function MatchHeader(line: string): (m: Option<HeaderMatch>)
    ensures m.Some? ==> StartsLikeHeader(line)
    ensures m.Some? ==> m.value.digits != [] && forall i :: 0 <= i < |m.value.digits| ==> IsDigit(m.value.digits[i])
    ensures m.Some? ==> !HasLineTerminator(m.value.prompt)
  {
    var d := LeadingDigits(line);
    if d == 0 || d == |line| || line[d] != '.' then None
    else
      var w := LeadingSpace(line[d + 1..]);
      var rest := line[d + 1 + w..];
      if w == 0 || HasLineTerminator(rest) then None
      else
        LeadingDigitsRun(line);
        Some(HeaderMatch(line[..d], rest))
  }

  /** `^\d+\.\s+`: the weaker test the explanation branch uses for "next question". */
  predicate StartsLikeHeader(line: string) {
    var d := LeadingDigits(line);
    0 < d && d + 1 < |line| && line[d] == '.' && IsWhiteSpace(line[d + 1])
  }

  /**
   * `\s+(.*)$`: a non-empty whitespace run, taken greedily, then the rest of
   * the line as the capture, which holds no line terminator.
   */
  function SpacedRest(s: string): Option<string> {
    var rest := TrimStart(s);
    if |rest| == |s| || HasLineTerminator(rest) then None else Some(rest)
  }

  /**
   * `^\s*-\s*([A-Z])\.\s+(.*)$` with the `i` flag, read left to right: the
   * leading whitespace, the dash, whitespace, the letter and its dot, then
   * the spaced text.
   */
  function MatchOption(line: string): (m: Option<OptionMatch>)
    ensures m.Some? ==> IsAsciiLetter(m.value.letter)
  {
    var t := TrimStart(line);
    if t == [] || t[0] != '-' then None
    else
      var u := TrimStart(t[1..]);
      if |u| < 2 || !IsAsciiLetter(u[0]) || u[1] != '.' then None
      else
        match SpacedRest(u[2..])
        case None => None
        case Some(text) => Some(OptionMatch(u[0], text))
  }

  /**
   * `^\s*Correct\s*Answer:\s*(.*)$` with the `i` flag, read left to right;
   * the result is the captured list: the end of the line, after the greedy
   * whitespace run, so it starts with no whitespace and holds no line
   * terminator.
   */
  function MatchCorrectAnswer(line: string): (m: Option<string>)
    ensures m.Some? ==> EndsWith(line, m.value) && !HasLineTerminator(m.value)
    ensures m.Some? ==> m.value == [] || !IsWhiteSpace(m.value[0])
  {
    var t := TrimStart(line);
    if !StartsWithIgnoringCase(t, "Correct") then None
    else
      var u := TrimStart(t[7..]);
      if !StartsWithIgnoringCase(u, "Answer:") then None
      else
        var list := TrimStart(u[7..]);
        if HasLineTerminator(list) then None
        else
          TrimStartSuffix(line);
          DropIsSuffix(t, 7);
          SuffixTrans(line, t, t[7..]);
          TrimStartSuffix(t[7..]);
          SuffixTrans(line, t[7..], u);
          DropIsSuffix(u, 7);
          SuffixTrans(line, u, u[7..]);
          TrimStartSuffix(u[7..]);
          SuffixTrans(line, u[7..], list);
          Some(list)
  }

  /** Dropping a prefix leaves a suffix. */
  lemma DropIsSuffix(s: string, n: nat)
    requires n <= |s|
    ensures EndsWith(s, s[n..])
  {
  }

  /** A suffix of a suffix is a suffix. */
  lemma SuffixTrans(s: string, t: string, r: string)
    requires EndsWith(s, t) && EndsWith(t, r)
    ensures EndsWith(s, r)
  {
    assert s[|s| - |r|..] == s[|s| - |t|..][|t| - |r|..];
  }

  /** What `trimStart` leaves is a suffix of the string, and starts with no whitespace. */
  lemma TrimStartSuffix(s: string)
    ensures EndsWith(s, TrimStart(s))
    ensures TrimStart(s) == [] || !IsWhiteSpace(TrimStart(s)[0])
  {
  }

  /** `^\s*Explanation:` with the `i` flag */
  predicate IsExplanationStart(line: string) {
    StartsWithIgnoringCase(line[LeadingSpace(line)..], "Explanation:")
  }

  // `line.replace(/^\s*-\s*/, "").trim()`: an explanation line without its bullet.
  function BulletStripped(line: string): string {
    var a := LeadingSpace(line);
    if a < |line| && line[a] == '-' then
      Trim(line[a + 1 + LeadingSpace(line[a + 1..])..])
    else
      Trim(line)
  }

  /** `list.split(",").map(s => s.trim().toUpperCase())` */
  function AnswerList(list: string): (answers: seq<string>)
    ensures |answers| >= 1
  {
    var parts := Split(list, ',');
    seq(|parts|, i requires 0 <= i < |parts| => ToUpperAscii(Trim(parts[i])))
  }

  /** `explanationBuffer.join(" ").trim()` */
  function JoinedExplanation(buffer: seq<string>): string {
    Trim(Join(buffer, " "))
  }

  // ---------------------------------------------------------------- parser state

  /** The fields a header line sets, all at once. */
  datatype OpenQuestion = OpenQuestion(
    id: nat,
    question: string,
    options: seq<Choice>,
    correctAnswers: seq<string>,
    multiple: bool)

  /**
   * `currentQuestion`: the header fields are present once a header has opened
   * a question; `explanation` is set separately, also when no question is open.
   */
  datatype Draft = Draft(open: Option<OpenQuestion>, explanation: Option<string>) {
    /** `Object.keys(currentQuestion).length > 0` */
    predicate HasKeys() { open.Some? || explanation.Some? }
  }

  const EmptyDraft := Draft(None, None)

  datatype ParserState = ParserState(
    questions: seq<Question>,
    current: Draft,
    inExplanation: bool,
    explanationBuffer: seq<string>)

  const InitialState := ParserState([], EmptyDraft, false, [])

  /** The emission test of `flushQuestion`: truthy id and text, some option, some answer. */
  predicate Complete(d: Draft) {
    && d.open.Some?
    && d.open.value.id != 0
    && d.open.value.question != ""
    && |d.open.value.options| > 0
    && |d.open.value.correctAnswers| > 0
  }

  /** The record `flushQuestion` pushes for a complete draft. */
  function Emit(d: Draft): Question
    requires Complete(d)
  {
    var q := d.open.value;
    Question(q.id, Trim(q.question), q.options, q.correctAnswers, d.explanation.GetOr(""), q.multiple)
  }

  /** The questions pushed so far, and the one a header has opened, if any. */
  function Started(st: ParserState): nat {
    |st.questions| + (if st.current.open.Some? then 1 else 0)
  }

  /**
   * `flushQuestion`: the questions pushed so far are kept and the record
   * built from the draft is pushed exactly when the draft is complete; the
   * draft and the explanation state start afresh.
   */
  function Flush(st: ParserState): (r: ParserState)
    ensures st.questions <= r.questions
    ensures |r.questions| == |st.questions| + (if Complete(st.current) then 1 else 0)
    ensures Complete(st.current) ==> r.questions == st.questions + [Emit(st.current)]
    ensures r.current == EmptyDraft && !r.inExplanation && r.explanationBuffer == []
  {
    var pushed := if Complete(st.current) then st.questions + [Emit(st.current)] else st.questions;
    ParserState(pushed, EmptyDraft, false, [])
  }

  /** The state after a header line: flushed, then a fresh draft for the new question. */
  function OpenAt(st: ParserState, h: HeaderMatch): ParserState {
    var flushed := Flush(st);
    var prompt := Trim(h.prompt);
    var q := OpenQuestion(ParseDecimal(h.digits), prompt, [], [], ContainsIgnoringCase(prompt, ChooseTwo));
    flushed.(current := Draft(Some(q), None))
  }

  /** Sets the draft's explanation from the buffer. */
  function CloseExplanation(st: ParserState): ParserState {
    st.(current := st.current.(explanation := Some(JoinedExplanation(st.explanationBuffer))))
  }

  /**
   * One iteration of the loop over lines, branches in the order the source
   * tests them. A line never takes back a pushed question, and it pushes or
   * opens at most one more.
   */
  function Step(st: ParserState, rawLine: string): (r: ParserState)
    ensures st.questions <= r.questions
    ensures Started(r) <= Started(st) + 1
  {
    var line := TrimEnd(rawLine);
    var header := MatchHeader(line);
    if header.Some? then
      OpenAt(st, header.value)
    else if MatchOption(line).Some? && st.current.open.Some? then
      var m := MatchOption(line).value;
      var q := st.current.open.value;
      var choice := Choice([UpperAscii(m.letter)], Trim(m.text));
      st.(current := st.current.(open := Some(q.(options := q.options + [choice]))))
    else if MatchCorrectAnswer(line).Some? && st.current.open.Some? then
      var q := st.current.open.value;
      var answers := AnswerList(MatchCorrectAnswer(line).value);
      st.(current := st.current.(open := Some(q.(correctAnswers := answers))))
    else if IsExplanationStart(line) then
      st.(inExplanation := true)
    else if st.inExplanation then
      if line == "" || StartsLikeHeader(line) then
        var closed := CloseExplanation(st).(inExplanation := false);
        if StartsLikeHeader(line) then Flush(closed) else closed
      else
        st.(explanationBuffer := st.explanationBuffer + [BulletStripped(line)])
    else
      st
  }

  /** The state after the given lines, fed one by one from the initial state: no more questions than lines. */
  function Run(lines: seq<string>): (r: ParserState)
    ensures Started(r) <= |lines|
  {
    if lines == [] then InitialState
    else Step(Run(lines[..|lines| - 1]), lines[|lines| - 1])
  }

  /**
   * The final flush after the loop, draining an open explanation first: only
   * the open question, if any, can still be pushed.
   */
  function Finish(st: ParserState): (questions: seq<Question>)
    ensures st.questions <= questions
    ensures |questions| <= Started(st)
  {
    if st.current.HasKeys() then
      Flush(if st.inExplanation then CloseExplanation(st) else st).questions
    else
      st.questions
  }

  /** `content.split("\n")` */
  function Lines(content: string): seq<string> {
    Split(content, '\n')
  }

  /** What `parseMarkdownContent(content, title)` returns: at most one question per line. */
  function Parse(content: string, title: Option<string>): (exam: Exam)
    ensures |exam.questions| <= |Lines(content)|
  {
    Exam(title.GetOr(DefaultTitle), Finish(Run(Lines(content))))
  }

  /** Feeding one more line is one more `Step`. */
  lemma RunExtends(lines: seq<string>, i: nat)
    requires i < |lines|
    ensures Run(lines[..i + 1]) == Step(Run(lines[..i]), lines[i])
  {
    assert lines[..i + 1][..i] == lines[..i];
  }

  /** The body of the loop over lines: the source's locals before and after one line. */
  method ParseLine(questions: seq<Question>, currentQuestion: Draft, inExplanation: bool,
                   explanationBuffer: seq<string>, rawLine: string)
    returns (questions': seq<Question>, currentQuestion': Draft, inExplanation': bool,
             explanationBuffer': seq<string>)
    ensures ParserState(questions', currentQuestion', inExplanation', explanationBuffer')
         == Step(ParserState(questions, currentQuestion, inExplanation, explanationBuffer), rawLine)
  {
    ghost var before := ParserState(questions, currentQuestion, inExplanation, explanationBuffer);
    ghost var after := Step(before, rawLine);
    questions', currentQuestion', inExplanation', explanationBuffer' :=
      questions, currentQuestion, inExplanation, explanationBuffer;
    var line := TrimEnd(rawLine);
    var questionMatch := MatchHeader(line);
    var optionMatch := MatchOption(line);
    var correctMatch := MatchCorrectAnswer(line);
    if questionMatch.Some? {
      assert after == OpenAt(before, questionMatch.value);
      // flushQuestion()
      if Complete(currentQuestion') {
        questions' := questions' + [Emit(currentQuestion')];
      }
      currentQuestion', inExplanation', explanationBuffer' := EmptyDraft, false, [];
      var prompt := Trim(questionMatch.value.prompt);
      var started := OpenQuestion(ParseDecimal(questionMatch.value.digits), prompt, [], [],
                                  ContainsIgnoringCase(prompt, ChooseTwo));
      currentQuestion' := currentQuestion'.(open := Some(started));
    } else if optionMatch.Some? && currentQuestion'.open.Some? {
      var letter := [UpperAscii(optionMatch.value.letter)];
      var q := currentQuestion'.open.value;
      currentQuestion' := currentQuestion'.(open := Some(q.(options := q.options + [Choice(letter, Trim(optionMatch.value.text))])));
    } else if correctMatch.Some? && currentQuestion'.open.Some? {
      var q := currentQuestion'.open.value;
      currentQuestion' := currentQuestion'.(open := Some(q.(correctAnswers := AnswerList(correctMatch.value))));
    } else if IsExplanationStart(line) {
      inExplanation' := true;
    } else if inExplanation' {
      if line == "" || StartsLikeHeader(line) {
        currentQuestion' := currentQuestion'.(explanation := Some(JoinedExplanation(explanationBuffer')));
        inExplanation' := false;
        if StartsLikeHeader(line) {
          // flushQuestion()
          if Complete(currentQuestion') {
            questions' := questions' + [Emit(currentQuestion')];
          }
          currentQuestion', inExplanation', explanationBuffer' := EmptyDraft, false, [];
        }
      } else {
        explanationBuffer' := explanationBuffer' + [BulletStripped(line)];
      }
    }
  }

  /** The parser: the loop over lines, then the final flush. */
  method ParseMarkdownContent(content: string, title: Option<string>) returns (exam: Exam)
    ensures exam == Parse(content, title)
  {
    var lines := Lines(content);
    var questions: seq<Question> := [];
    var currentQuestion := EmptyDraft;
    var inExplanation := false;
    var explanationBuffer: seq<string> := [];

    var i := 0;
    while i < |lines|
      invariant 0 <= i <= |lines|
      invariant ParserState(questions, currentQuestion, inExplanation, explanationBuffer) == Run(lines[..i])
    {
      questions, currentQuestion, inExplanation, explanationBuffer :=
        ParseLine(questions, currentQuestion, inExplanation, explanationBuffer, lines[i]);
      RunExtends(lines, i);
      i := i + 1;
    }
    assert lines[..i] == lines;

    if currentQuestion.HasKeys() {
      if inExplanation {
        currentQuestion := currentQuestion.(explanation := Some(JoinedExplanation(explanationBuffer)));
      }
      // flushQuestion()
      if Complete(currentQuestion) {
        questions := questions + [Emit(currentQuestion)];
      }
      currentQuestion, inExplanation, explanationBuffer := EmptyDraft, false, [];
    }
    exam := Exam(title.GetOr(DefaultTitle), questions);
  }
}
