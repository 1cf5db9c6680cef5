/**
 * What the markdown exam parser guarantees about its output, proved about
 * `ParseMarkdown.Parse` and its `Step` function:
 *   - every emitted question is well formed (positive id, non-empty trimmed
 *     text, normalised options and answers, `multiple` from the prompt);
 *   - emitted questions come from header lines, in source order, with the
 *     header's id and prompt, so there are never more of them than headers.
 * The per-line rules are proved in `ParseMarkdownLines`.
 */
module ParseMarkdownProofs {
  import opened Wrappers
  import opened Text
  import opened Seqs
  import opened ParseMarkdown

  // ---------------------------------------------------------------- well-formed output

  /** An option as recorded: one upper-case ASCII letter and trimmed text. */
  predicate NormalChoice(c: Choice) {
    |c.letter| == 1 && IsUpperAscii(c.letter[0]) && IsTrimmed(c.text)
  }

  /** A correct-answer entry as recorded: trimmed, with no lower-case ASCII letter. */
  predicate NormalAnswer(a: string) {
    IsTrimmed(a) && forall i :: 0 <= i < |a| ==> !IsLowerAscii(a[i])
  }

  /** What the header fields of an open draft always satisfy. */
  predicate OpenInv(q: OpenQuestion) {
    && q.question != "" && IsTrimmed(q.question)
    && (forall i :: 0 <= i < |q.options| ==> NormalChoice(q.options[i]))
    && (forall i :: 0 <= i < |q.correctAnswers| ==> NormalAnswer(q.correctAnswers[i]))
    && q.multiple == ContainsIgnoringCase(q.question, ChooseTwo)
  }

  /** Every question the parser emits satisfies this. */
  predicate WellFormed(q: Question) {
    && q.id > 0
    && q.question != "" && IsTrimmed(q.question)
    && |q.options| > 0 && (forall i :: 0 <= i < |q.options| ==> NormalChoice(q.options[i]))
    && |q.correctAnswers| > 0 && (forall i :: 0 <= i < |q.correctAnswers| ==> NormalAnswer(q.correctAnswers[i]))
    && IsTrimmed(q.explanation)
    && q.multiple == ContainsIgnoringCase(q.question, ChooseTwo)
  }

  /** The parser-state invariant. */
  predicate Inv(st: ParserState) {
    && (forall i :: 0 <= i < |st.questions| ==> WellFormed(st.questions[i]))
    && (st.current.open.Some? ==> OpenInv(st.current.open.value))
    && (st.current.explanation.Some? ==> IsTrimmed(st.current.explanation.value))
  }

  /** A header's prompt, as captured from a `trimEnd`-ed line, is non-empty and already trimmed. */
  lemma HeaderPromptTrimmed(line: string)
    requires line == [] || !IsWhiteSpace(line[|line| - 1])
    requires MatchHeader(line).Some?
    ensures MatchHeader(line).value.prompt != ""
    ensures IsTrimmed(MatchHeader(line).value.prompt)
    ensures Trim(MatchHeader(line).value.prompt) == MatchHeader(line).value.prompt
  {
    var d := LeadingDigits(line);
    var w := LeadingSpace(line[d + 1..]);
    var rest := line[d + 1 + w..];
    assert rest == MatchHeader(line).value.prompt;
    LeadingSpaceRun(line[d + 1..]);
    assert line[d + w] == line[d + 1..][w - 1];
    assert rest[|rest| - 1] == line[|line| - 1];
    if d + 1 + w < |line| {
      assert rest[0] == line[d + 1..][w];
    }
    TrimOfTrimmed(rest);
  }

  lemma EmitWellFormed(d: Draft)
    requires Complete(d) && OpenInv(d.open.value)
    requires d.explanation.Some? ==> IsTrimmed(d.explanation.value)
    ensures WellFormed(Emit(d))
  {
    TrimOfTrimmed(d.open.value.question);
  }

  lemma FlushKeepsInv(st: ParserState)
    requires Inv(st)
    ensures Inv(Flush(st))
  {
    if Complete(st.current) {
      EmitWellFormed(st.current);
    }
  }

  lemma AnswerListNormal(list: string)
    ensures forall i :: 0 <= i < |AnswerList(list)| ==> NormalAnswer(AnswerList(list)[i])
  {
    var parts := Split(list, ',');
    forall i | 0 <= i < |parts|
      ensures NormalAnswer(ToUpperAscii(Trim(parts[i])))
    {
      TrimIsTrimmed(parts[i]);
      UpperKeepsTrimmed(Trim(parts[i]));
    }
  }

  lemma StepHeaderKeepsInv(st: ParserState, raw: string)
    requires Inv(st) && MatchHeader(TrimEnd(raw)).Some?
    ensures Inv(Step(st, raw))
  {
    TrimEndLast(raw);
    HeaderPromptTrimmed(TrimEnd(raw));
    FlushKeepsInv(st);
  }

  /** The option a matched option line records is normal. */
  lemma OptionChoiceNormal(m: OptionMatch)
    requires IsAsciiLetter(m.letter)
    ensures NormalChoice(Choice([UpperAscii(m.letter)], Trim(m.text)))
  {
    TrimIsTrimmed(m.text);
    UpperAsciiLetter(m.letter);
  }

  /** An option line under an open question appends exactly its choice. */
  lemma StepOption(st: ParserState, raw: string) returns (m: OptionMatch)
    requires MatchHeader(TrimEnd(raw)).None?
    requires MatchOption(TrimEnd(raw)).Some? && st.current.open.Some?
    ensures IsAsciiLetter(m.letter)
    ensures var q := st.current.open.value;
      Step(st, raw) == st.(current := st.current.(open := Some(q.(options := q.options + [Choice([UpperAscii(m.letter)], Trim(m.text))]))))
  {
    m := MatchOption(TrimEnd(raw)).value;
  }

  /** Appending a normal choice to the open draft keeps the invariant. */
  lemma AppendChoiceKeepsInv(st: ParserState, c: Choice)
    requires Inv(st) && st.current.open.Some? && NormalChoice(c)
    ensures var q := st.current.open.value;
      Inv(st.(current := st.current.(open := Some(q.(options := q.options + [c])))))
  {
    var q := st.current.open.value;
    assert OpenInv(q.(options := q.options + [c]));
  }

  lemma StepOptionKeepsInv(st: ParserState, raw: string)
    requires Inv(st)
    requires MatchHeader(TrimEnd(raw)).None?
    requires MatchOption(TrimEnd(raw)).Some? && st.current.open.Some?
    ensures Inv(Step(st, raw))
  {
    var m := StepOption(st, raw);
    OptionChoiceNormal(m);
    AppendChoiceKeepsInv(st, Choice([UpperAscii(m.letter)], Trim(m.text)));
  }

  lemma StepAnswerKeepsInv(st: ParserState, raw: string)
    requires Inv(st)
    requires MatchHeader(TrimEnd(raw)).None?
    requires !(MatchOption(TrimEnd(raw)).Some? && st.current.open.Some?)
    requires MatchCorrectAnswer(TrimEnd(raw)).Some? && st.current.open.Some?
    ensures Inv(Step(st, raw))
  {
    AnswerListNormal(MatchCorrectAnswer(TrimEnd(raw)).value);
  }

  /** Closing the explanation keeps the invariant: the joined buffer is trimmed. */
  lemma CloseKeepsInv(st: ParserState)
    requires Inv(st)
    ensures Inv(CloseExplanation(st).(inExplanation := false))
  {
    TrimIsTrimmed(Join(st.explanationBuffer, " "));
  }

  lemma StepExplanationKeepsInv(st: ParserState, raw: string)
    requires Inv(st)
    requires MatchHeader(TrimEnd(raw)).None?
    requires !(MatchOption(TrimEnd(raw)).Some? && st.current.open.Some?)
    requires !(MatchCorrectAnswer(TrimEnd(raw)).Some? && st.current.open.Some?)
    requires !IsExplanationStart(TrimEnd(raw)) && st.inExplanation
    ensures Inv(Step(st, raw))
  {
    var line := TrimEnd(raw);
    if line == "" || StartsLikeHeader(line) {
      CloseKeepsInv(st);
      FlushKeepsInv(CloseExplanation(st).(inExplanation := false));
    }
  }

  /** One line keeps the invariant. */
  lemma StepKeepsInv(st: ParserState, raw: string)
    requires Inv(st)
    ensures Inv(Step(st, raw))
  {
    var line := TrimEnd(raw);
    if MatchHeader(line).Some? {
      StepHeaderKeepsInv(st, raw);
    } else if MatchOption(line).Some? && st.current.open.Some? {
      StepOptionKeepsInv(st, raw);
    } else if MatchCorrectAnswer(line).Some? && st.current.open.Some? {
      StepAnswerKeepsInv(st, raw);
    } else if !IsExplanationStart(line) && st.inExplanation {
      StepExplanationKeepsInv(st, raw);
    }
  }

  lemma {:induction false} RunKeepsInv(lines: seq<string>)
    ensures Inv(Run(lines))
  {
    if lines != [] {
      RunKeepsInv(lines[..|lines| - 1]);
      StepKeepsInv(Run(lines[..|lines| - 1]), lines[|lines| - 1]);
    }
  }

  lemma FinishWellFormed(st: ParserState)
    requires Inv(st)
    ensures forall i :: 0 <= i < |Finish(st)| ==> WellFormed(Finish(st)[i])
  {
    if st.current.HasKeys() {
      var st1 := if st.inExplanation then CloseExplanation(st) else st;
      TrimIsTrimmed(Join(st.explanationBuffer, " "));
      assert Inv(st1);
      FlushKeepsInv(st1);
    }
  }

  /**
   * Every emitted question has a positive id, non-empty trimmed text, at
   * least one option (one upper-case letter, trimmed text), at least one
   * trimmed upper-cased answer, a trimmed explanation, and `multiple` set
   * exactly when its text contains "(Choose TWO)" in any letter case.
   */
  lemma ParseEmitsWellFormed(content: string, title: Option<string>)
    ensures forall i :: 0 <= i < |Parse(content, title).questions| ==> WellFormed(Parse(content, title).questions[i])
  {
    RunKeepsInv(Lines(content));
    FinishWellFormed(Run(Lines(content)));
  }

  /** A header whose digits are all '0' has the falsy id 0, so it never yields a question. */
  lemma ZeroHeaderNeverEmitted(content: string, title: Option<string>, digits: string)
    requires |digits| > 0 && forall i :: 0 <= i < |digits| ==> digits[i] == '0'
    ensures forall i :: 0 <= i < |Parse(content, title).questions| ==>
      Parse(content, title).questions[i].id != ParseDecimal(digits)
  {
    ParseDecimalZero(digits);
    ParseEmitsWellFormed(content, title);
  }

  // ---------------------------------------------------------------- source order

  /** What a question keeps from its header line: the id and the prompt. */
  function Key(q: Question): (int, string) {
    (q.id, q.question)
  }

  function Keys(qs: seq<Question>): seq<(int, string)> {
    MapSeq(qs, Key)
  }

  /** The header a raw line carries, if it is a header line. */
  function HeaderKey(raw: string): seq<(int, string)> {
    match MatchHeader(TrimEnd(raw))
    case Some(h) => [(ParseDecimal(h.digits) as int, Trim(h.prompt))]
    case None => []
  }

  /** The headers of the given lines, in order: one entry per header line. */
  function HeaderKeys(lines: seq<string>): seq<(int, string)> {
    if lines == [] then []
    else HeaderKeys(lines[..|lines| - 1]) + HeaderKey(lines[|lines| - 1])
  }

  /** The emitted questions' keys, then the open draft's. */
  function PendingKeys(st: ParserState): seq<(int, string)> {
    Keys(st.questions)
      + (if st.current.open.Some? then [(st.current.open.value.id as int, st.current.open.value.question)] else [])
  }

  lemma KeysAppend(qs: seq<Question>, q: Question)
    ensures Keys(qs + [q]) == Keys(qs) + [Key(q)]
  {
  }

  /** Flushing keeps the emitted keys inside the pending ones. */
  lemma FlushKeepsOrder(st: ParserState, headers: seq<(int, string)>)
    requires Inv(st) && IsSubseq(PendingKeys(st), headers)
    ensures IsSubseq(PendingKeys(Flush(st)), headers)
  {
    var flushed := Flush(st);
    assert PendingKeys(flushed) == Keys(flushed.questions);
    if st.current.open.Some? {
      var q := st.current.open.value;
      var k := (q.id as int, q.question);
      if Complete(st.current) {
        TrimOfTrimmed(q.question);
        KeysAppend(st.questions, Emit(st.current));
        assert Keys(flushed.questions) == PendingKeys(st);
      } else {
        SubseqDropLast(Keys(st.questions), headers, k);
      }
    }
  }

  /** A header's draft adds its key after the flushed questions' keys. */
  lemma OpenAtKeys(st: ParserState, h: HeaderMatch)
    ensures PendingKeys(OpenAt(st, h)) == PendingKeys(Flush(st)) + [(ParseDecimal(h.digits) as int, Trim(h.prompt))]
  {
  }

  lemma StepHeaderOrder(st: ParserState, headers: seq<(int, string)>, raw: string)
    requires Inv(st) && IsSubseq(PendingKeys(st), headers)
    requires MatchHeader(TrimEnd(raw)).Some?
    ensures IsSubseq(PendingKeys(Step(st, raw)), headers + HeaderKey(raw))
  {
    var h := MatchHeader(TrimEnd(raw)).value;
    var k := (ParseDecimal(h.digits) as int, Trim(h.prompt));
    assert Step(st, raw) == OpenAt(st, h);
    assert HeaderKey(raw) == [k];
    FlushKeepsOrder(st, headers);
    SubseqAppendBoth(PendingKeys(Flush(st)), headers, k);
    OpenAtKeys(st, h);
  }

  /** Option and answer lines edit the open draft's options and answers, never its id or text. */
  lemma StepEditKeepsKeys(st: ParserState, raw: string)
    requires MatchHeader(TrimEnd(raw)).None?
    requires || (MatchOption(TrimEnd(raw)).Some? && st.current.open.Some?)
             || (MatchCorrectAnswer(TrimEnd(raw)).Some? && st.current.open.Some?)
    ensures PendingKeys(Step(st, raw)) == PendingKeys(st)
  {
  }

  lemma StepExplanationOrder(st: ParserState, headers: seq<(int, string)>, raw: string)
    requires Inv(st) && IsSubseq(PendingKeys(st), headers)
    requires MatchHeader(TrimEnd(raw)).None?
    requires !(MatchOption(TrimEnd(raw)).Some? && st.current.open.Some?)
    requires !(MatchCorrectAnswer(TrimEnd(raw)).Some? && st.current.open.Some?)
    ensures IsSubseq(PendingKeys(Step(st, raw)), headers)
  {
    var line := TrimEnd(raw);
    if !IsExplanationStart(line) && st.inExplanation && (line == "" || StartsLikeHeader(line)) {
      var closed := CloseExplanation(st).(inExplanation := false);
      assert PendingKeys(closed) == PendingKeys(st);
      CloseKeepsInv(st);
      if StartsLikeHeader(line) {
        FlushKeepsOrder(closed, headers);
      }
    } else {
      assert PendingKeys(Step(st, raw)) == PendingKeys(st);
    }
  }

  /** One line keeps the pending keys a subsequence of the headers seen so far. */
  lemma StepKeepsOrder(st: ParserState, headers: seq<(int, string)>, raw: string)
    requires Inv(st) && IsSubseq(PendingKeys(st), headers)
    ensures IsSubseq(PendingKeys(Step(st, raw)), headers + HeaderKey(raw))
  {
    var line := TrimEnd(raw);
    if MatchHeader(line).Some? {
      StepHeaderOrder(st, headers, raw);
    } else {
      assert HeaderKey(raw) == [];
      assert headers + HeaderKey(raw) == headers;
      if || (MatchOption(line).Some? && st.current.open.Some?)
         || (MatchCorrectAnswer(line).Some? && st.current.open.Some?) {
        StepEditKeepsKeys(st, raw);
      } else {
        StepExplanationOrder(st, headers, raw);
      }
    }
  }

  lemma {:induction false} RunKeepsOrder(lines: seq<string>)
    ensures IsSubseq(PendingKeys(Run(lines)), HeaderKeys(lines))
  {
    if lines == [] {
      assert PendingKeys(Run(lines)) == [];
    } else {
      var init := lines[..|lines| - 1];
      RunKeepsOrder(init);
      RunKeepsInv(init);
      StepKeepsOrder(Run(init), HeaderKeys(init), lines[|lines| - 1]);
    }
  }

  /**
   * The emitted questions are header lines' (id, prompt) pairs, in the order
   * the headers appear, with some headers left out; so there are at most as
   * many questions as header lines.
   */
  lemma ParseFollowsHeaders(content: string, title: Option<string>)
    ensures IsSubseq(Keys(Parse(content, title).questions), HeaderKeys(Lines(content)))
    ensures |Parse(content, title).questions| <= |HeaderKeys(Lines(content))|
  {
    var lines := Lines(content);
    var st := Run(lines);
    RunKeepsOrder(lines);
    RunKeepsInv(lines);
    if st.current.HasKeys() {
      var st1 := if st.inExplanation then CloseExplanation(st) else st;
      TrimIsTrimmed(Join(st.explanationBuffer, " "));
      assert PendingKeys(st1) == PendingKeys(st);
      FlushKeepsOrder(st1, HeaderKeys(lines));
      assert Keys(Finish(st)) == PendingKeys(Flush(st1));
    } else {
      assert Keys(Finish(st)) == PendingKeys(st);
    }
    SubseqLength(Keys(Parse(content, title).questions), HeaderKeys(lines));
  }
}
