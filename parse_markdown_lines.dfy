/**
 * The markdown parser's line patterns and per-line rules:
 *   - the patterns exclude each other where the branch order relies on it;
 *   - what one header, option, answer or explanation line does to the state.
 */
module ParseMarkdownLines {
  import opened Wrappers
  import opened Text
  import opened ParseMarkdown
  import opened ParseMarkdownProofs

  // ---------------------------------------------------------------- what each pattern matches

  /** A greedy `\s*` or `\s+` in front of `s` stops where `s` starts. */
  predicate Unspaced(s: string) {
    s == [] || !IsWhiteSpace(s[0])
  }

  /**
   * The parts of a line `^(\d+)\.\s+(.*)$` matches: the digit run, the dot,
   * a non-empty whitespace run and the prompt. The whitespace run is greedy,
   * so the prompt starts with no whitespace, and `.` stops at a line
   * terminator.
   */
  predicate HeaderShape(digits: string, ws: string, prompt: string) {
    && digits != [] && AllDigits(digits)
    && ws != [] && AllWhiteSpace(ws)
    && !HasLineTerminator(prompt) && Unspaced(prompt)
  }

  /** The parts of a line `^\s*-\s*([A-Z])\.\s+(.*)$` matches under the `i` flag. */
  predicate OptionShape(lead: string, gap: string, letter: char, ws: string, text: string) {
    && AllWhiteSpace(lead) && AllWhiteSpace(gap) && IsAsciiLetter(letter)
    && ws != [] && AllWhiteSpace(ws)
    && !HasLineTerminator(text) && Unspaced(text)
  }

  /** The parts of a line `^\s*Correct\s*Answer:\s*(.*)$` matches under the `i` flag. */
  predicate AnswerShape(lead: string, correct: string, gap: string, answer: string, ws: string, list: string) {
    && AllWhiteSpace(lead)
    && |correct| == 7 && StartsWithIgnoringCase(correct, "Correct")
    && AllWhiteSpace(gap)
    && |answer| == 7 && StartsWithIgnoringCase(answer, "Answer:")
    && AllWhiteSpace(ws)
    && !HasLineTerminator(list) && Unspaced(list)
  }

  /** A whitespace run followed by something that does not start with whitespace is the whole leading run. */
  lemma LeadingSpaceExact(ws: string, rest: string)
    requires AllWhiteSpace(ws) && Unspaced(rest)
    ensures LeadingSpace(ws + rest) == |ws|
  {
    LeadingSpaceAppend(ws, rest);
  }

  /** `trimStart` of a whitespace run followed by an unspaced tail is the tail. */
  lemma SkipSpace(ws: string, rest: string)
    requires AllWhiteSpace(ws) && Unspaced(rest)
    ensures TrimStart(ws + rest) == rest
  {
    LeadingSpaceExact(ws, rest);
    assert (ws + rest)[|ws|..] == rest;
  }

  /** A string is its leading whitespace run followed by what `trimStart` leaves. */
  lemma SpaceRun(s: string) returns (ws: string)
    ensures s == ws + TrimStart(s) && AllWhiteSpace(ws) && Unspaced(TrimStart(s))
  {
    LeadingSpaceRun(s);
    ws := s[..LeadingSpace(s)];
    assert s == ws + TrimStart(s);
  }

  /** A spaced capture is the end of its input after a non-empty whitespace run. */
  lemma SpacedRestSound(s: string) returns (ws: string)
    requires SpacedRest(s).Some?
    ensures var rest := SpacedRest(s).value;
      s == ws + rest && ws != [] && AllWhiteSpace(ws) && Unspaced(rest) && !HasLineTerminator(rest)
  {
    ws := SpaceRun(s);
  }

  /** Every non-empty whitespace run followed by an unspaced tail without line terminators gives that tail. */
  lemma SpacedRestComplete(ws: string, rest: string)
    requires ws != [] && AllWhiteSpace(ws) && Unspaced(rest) && !HasLineTerminator(rest)
    ensures SpacedRest(ws + rest) == Some(rest)
  {
    SkipSpace(ws, rest);
  }

  /** A header match splits its line into the digit run, a dot, whitespace and the captured prompt. */
  lemma HeaderPatternSound(line: string)
    requires MatchHeader(line).Some?
    ensures var h := MatchHeader(line).value;
      exists ws :: HeaderShape(h.digits, ws, h.prompt) && line == h.digits + "." + ws + h.prompt
  {
    var h := MatchHeader(line).value;
    var d := LeadingDigits(line);
    var w := LeadingSpace(line[d + 1..]);
    LeadingSpaceRun(line[d + 1..]);
    var ws := line[d + 1..d + 1 + w];
    assert AllWhiteSpace(ws);
    assert line == h.digits + "." + ws + h.prompt;
    assert HeaderShape(h.digits, ws, h.prompt);
  }

  /** Every line of that shape matches, with exactly those captures. */
  lemma HeaderPatternComplete(digits: string, ws: string, prompt: string)
    requires HeaderShape(digits, ws, prompt)
    ensures MatchHeader(digits + "." + ws + prompt) == Some(HeaderMatch(digits, prompt))
  {
    var line := digits + "." + ws + prompt;
    LeadingDigitsExact(line, |digits|);
    assert line[|digits| + 1..] == ws + prompt;
    LeadingSpaceExact(ws, prompt);
    assert line[|digits| + 1 + |ws|..] == prompt;
    assert line[..|digits|] == digits;
  }

  /** A string is its first `n` characters followed by the rest. */
  lemma SplitAt(s: string, n: nat)
    requires n <= |s|
    ensures s == s[..n] + s[n..]
  {
  }

  /** A string of at least two characters is those two followed by the rest. */
  lemma SplitTwo(s: string)
    requires |s| >= 2
    ensures s == [s[0], s[1]] + s[2..]
  {
  }

  /** A case-insensitive literal prefix survives appending. */
  lemma StartsWithAppend(p: string, r: string, lit: string)
    requires StartsWithIgnoringCase(p, lit)
    ensures StartsWithIgnoringCase(p + r, lit)
  {
  }

  /** Dropping a prefix of its own length leaves the rest. */
  lemma DropPrefix(p: string, r: string)
    ensures (p + r)[|p|..] == r
  {
  }

  /** The pieces of an option line, regrouped from the right. */
  lemma OptionRegrouped(lead: string, gap: string, letter: char, ws: string, text: string)
    ensures lead + "-" + gap + [letter] + "." + ws + text == lead + (['-'] + (gap + ([letter, '.'] + (ws + text))))
  {
  }

  /** The pieces of an answer line, regrouped from the right. */
  lemma AnswerRegrouped(lead: string, correct: string, gap: string, answer: string, ws: string, list: string)
    ensures lead + correct + gap + answer + ws + list == lead + (correct + (gap + (answer + (ws + list))))
  {
  }

  /** The option branch's own tests, read back as the parts of the line. */
  lemma OptionParts(line: string, t: string, u: string, letter: char, text: string) returns (lead: string, gap: string, ws: string)
    requires t == TrimStart(line) && t != [] && t[0] == '-'
    requires u == TrimStart(t[1..]) && |u| >= 2 && u[0] == letter && u[1] == '.'
    requires IsAsciiLetter(letter) && SpacedRest(u[2..]) == Some(text)
    ensures OptionShape(lead, gap, letter, ws, text) && line == lead + "-" + gap + [letter] + "." + ws + text
  {
    lead := SpaceRun(line);
    gap := SpaceRun(t[1..]);
    ws := SpacedRestSound(u[2..]);
    SplitTwo(u);
    SplitAt(t, 1);
    assert t[..1] == ['-'];
    OptionRegrouped(lead, gap, letter, ws, text);
  }

  /** An option match splits its line into whitespace, a dash, whitespace, the letter, a dot, whitespace and the text. */
  lemma OptionPatternSound(line: string)
    requires MatchOption(line).Some?
    ensures var o := MatchOption(line).value;
      exists lead, gap, ws :: OptionShape(lead, gap, o.letter, ws, o.text)
        && line == lead + "-" + gap + [o.letter] + "." + ws + o.text
  {
    var o := MatchOption(line).value;
    var t := TrimStart(line);
    var lead, gap, ws := OptionParts(line, t, TrimStart(t[1..]), o.letter, o.text);
  }

  /** Every line of that shape matches, with exactly those captures. */
  lemma OptionPatternComplete(lead: string, gap: string, letter: char, ws: string, text: string)
    requires OptionShape(lead, gap, letter, ws, text)
    ensures MatchOption(lead + "-" + gap + [letter] + "." + ws + text) == Some(OptionMatch(letter, text))
  {
    OptionRegrouped(lead, gap, letter, ws, text);
    var u := [letter, '.'] + (ws + text);
    var t := ['-'] + (gap + u);
    SkipSpace(lead, t);
    assert t[1..] == gap + u;
    SkipSpace(gap, u);
    assert u[2..] == ws + text;
    SpacedRestComplete(ws, text);
  }

  /** The answer branch's own tests, read back as the parts of the line. */
  lemma AnswerParts(line: string, t: string, u: string, list: string) returns (lead: string, correct: string, gap: string, answer: string, ws: string)
    requires t == TrimStart(line) && StartsWithIgnoringCase(t, "Correct")
    requires u == TrimStart(t[7..]) && StartsWithIgnoringCase(u, "Answer:")
    requires list == TrimStart(u[7..]) && !HasLineTerminator(list)
    ensures AnswerShape(lead, correct, gap, answer, ws, list) && line == lead + correct + gap + answer + ws + list
  {
    lead := SpaceRun(line);
    gap := SpaceRun(t[7..]);
    ws := SpaceRun(u[7..]);
    SplitAt(u, 7);
    SplitAt(t, 7);
    correct, answer := t[..7], u[..7];
    AnswerRegrouped(lead, correct, gap, answer, ws, list);
  }

  /** An answer match splits its line into whitespace, `Correct`, whitespace, `Answer:`, whitespace and the list. */
  lemma AnswerPatternSound(line: string)
    requires MatchCorrectAnswer(line).Some?
    ensures var list := MatchCorrectAnswer(line).value;
      exists lead, correct, gap, answer, ws :: AnswerShape(lead, correct, gap, answer, ws, list)
        && line == lead + correct + gap + answer + ws + list
  {
    var list := MatchCorrectAnswer(line).value;
    var t := TrimStart(line);
    var lead, correct, gap, answer, ws := AnswerParts(line, t, TrimStart(t[7..]), list);
  }

  /** The answer branch's tests, met, give the capture. */
  lemma AnswerAccepts(line: string, t: string, u: string, list: string)
    requires t == TrimStart(line) && StartsWithIgnoringCase(t, "Correct")
    requires u == TrimStart(t[7..]) && StartsWithIgnoringCase(u, "Answer:")
    requires list == TrimStart(u[7..]) && !HasLineTerminator(list)
    ensures MatchCorrectAnswer(line) == Some(list)
  {
  }

  /** Every line of that shape matches, with exactly that capture. */
  lemma AnswerPatternComplete(lead: string, correct: string, gap: string, answer: string, ws: string, list: string)
    requires AnswerShape(lead, correct, gap, answer, ws, list)
    ensures MatchCorrectAnswer(lead + correct + gap + answer + ws + list) == Some(list)
  {
    AnswerRegrouped(lead, correct, gap, answer, ws, list);
    var u := answer + (ws + list);
    var t := correct + (gap + u);
    assert SameIgnoringCase(correct[0], 'C');
    SkipSpace(lead, t);
    StartsWithAppend(correct, gap + u, "Correct");
    DropPrefix(correct, gap + u);
    assert SameIgnoringCase(answer[0], 'A');
    SkipSpace(gap, u);
    StartsWithAppend(answer, ws + list, "Answer:");
    DropPrefix(answer, ws + list);
    SkipSpace(ws, list);
    AnswerAccepts(lead + t, t, u, list);
  }

  /** `Correct Answer:` with nothing after it matches with the empty capture, and so records the single answer "". */
  lemma EmptyAnswerList()
    ensures MatchCorrectAnswer("Correct Answer:") == Some("")
    ensures AnswerList("") == [""]
  {
    var line := "Correct Answer:";
    assert LeadingSpace(line) == 0 && line[7..] == " Answer:";
    assert LeadingSpace(" Answer:") == 1 && " Answer:"[1..] == "Answer:";
    assert "Answer:"[7..] == "";
    AnswerAccepts(line, line, "Answer:", "");
    assert Split("", ',') == [""];
  }

  // ---------------------------------------------------------------- the patterns against each other

  /** The branch order never hides an option or answer line behind the header branch, nor an answer line behind the option branch. */
  lemma PatternsExclusive(line: string)
    ensures MatchOption(line).Some? ==> MatchHeader(line).None?
    ensures MatchCorrectAnswer(line).Some? ==> MatchHeader(line).None? && MatchOption(line).None?
  {
    var a := LeadingSpace(line);
    if MatchHeader(line).Some? {
      assert IsDigit(line[0]);
      assert a == 0;
    }
    if MatchCorrectAnswer(line).Some? {
      assert SameIgnoringCase(line[a..][0], "Correct"[0]);
    }
  }

  /**
   * The explanation branch's "next question" test `^\d+\.\s+` holds on every
   * header line, and on a non-header line only when the line holds a line
   * terminator (which `.` in the header expression cannot match).
   */
  lemma NearHeader(line: string)
    ensures MatchHeader(line).Some? ==> StartsLikeHeader(line)
    ensures StartsLikeHeader(line) && MatchHeader(line).None? ==> HasLineTerminator(line)
  {
    var d := LeadingDigits(line);
    if StartsLikeHeader(line) && MatchHeader(line).None? {
      var w := LeadingSpace(line[d + 1..]);
      var rest := line[d + 1 + w..];
      var i :| 0 <= i < |rest| && IsLineTerminator(rest[i]);
      assert line[d + 1 + w + i] == rest[i];
    }
  }

  // ---------------------------------------------------------------- what one line does

  /**
   * A header line flushes the draft and opens a new one: the questions grow
   * by the flushed draft if it is complete, and explanation mode, the
   * buffer and the draft's explanation are all reset.
   */
  lemma HeaderLine(st: ParserState, raw: string)
    requires MatchHeader(TrimEnd(raw)).Some?
    ensures Step(st, raw).questions == st.questions + (if Complete(st.current) then [Emit(st.current)] else [])
    ensures !Step(st, raw).inExplanation && Step(st, raw).explanationBuffer == []
    ensures Step(st, raw).current.explanation == None
    ensures Step(st, raw).current.open.Some? && Step(st, raw).current.open.value.options == []
    ensures Step(st, raw).current.open.value.correctAnswers == []
  {
  }

  /**
   * At the end of the input the buffer is drained into the draft's
   * explanation if explanation mode is still on, and the draft is then
   * pushed exactly when it is complete.
   */
  lemma FinishLine(st: ParserState)
    ensures var d := if st.inExplanation
                     then st.current.(explanation := Some(JoinedExplanation(st.explanationBuffer)))
                     else st.current;
      Finish(st) == st.questions + (if Complete(d) then [Emit(d)] else [])
  {
  }

  /**
   * A header line does not look at explanation mode or the buffer: an
   * explanation still being collected when the next header arrives is lost,
   * and the flushed question keeps whatever explanation it had before.
   */
  lemma HeaderDiscardsExplanation(st: ParserState, raw: string, inExplanation: bool, buffer: seq<string>)
    requires MatchHeader(TrimEnd(raw)).Some?
    ensures Step(st.(inExplanation := inExplanation, explanationBuffer := buffer), raw) == Step(st, raw)
  {
  }

  /** An option line after a header appends one normal option at the end, and changes nothing else. */
  lemma OptionLine(st: ParserState, raw: string)
    requires MatchOption(TrimEnd(raw)).Some? && st.current.open.Some?
    ensures var q := st.current.open.value; var q' := Step(st, raw).current.open;
      && q'.Some?
      && |q'.value.options| == |q.options| + 1
      && q'.value.options[..|q.options|] == q.options
      && NormalChoice(q'.value.options[|q.options|])
      && q'.value.options[|q.options|].letter == [UpperAscii(MatchOption(TrimEnd(raw)).value.letter)]
      && q'.value.options[|q.options|].text == Trim(MatchOption(TrimEnd(raw)).value.text)
      && q'.value.(options := q.options) == q
    ensures Step(st, raw).(current := st.current) == st
    ensures Step(st, raw).current.explanation == st.current.explanation
  {
    PatternsExclusive(TrimEnd(raw));
    OptionChoiceNormal(MatchOption(TrimEnd(raw)).value);
    var q := st.current.open.value;
    assert Step(st, raw).current.open.value.options[..|q.options|] == q.options;
  }

  /** An answer line after a header replaces the answer list, whatever it held, and changes nothing else. */
  lemma AnswerLineReplaces(st: ParserState, raw: string, earlier: seq<string>)
    requires MatchCorrectAnswer(TrimEnd(raw)).Some? && st.current.open.Some?
    ensures Step(st, raw).current.open.Some?
    ensures Step(st, raw).current.open.value.correctAnswers == AnswerList(MatchCorrectAnswer(TrimEnd(raw)).value)
    ensures Step(st, raw).current.open.value.(correctAnswers := st.current.open.value.correctAnswers) == st.current.open.value
    ensures Step(st, raw).(current := st.current) == st
    ensures Step(st, raw).current.explanation == st.current.explanation
    ensures var q := st.current.open.value;
      Step(st.(current := st.current.(open := Some(q.(correctAnswers := earlier)))), raw) == Step(st, raw)
  {
    PatternsExclusive(TrimEnd(raw));
  }

  /**
   * Option and answer lines that follow a header never reach the
   * explanation, even in explanation mode.
   */
  lemma OptionAndAnswerNotExplained(st: ParserState, raw: string)
    requires st.current.open.Some?
    requires MatchOption(TrimEnd(raw)).Some? || MatchCorrectAnswer(TrimEnd(raw)).Some?
    ensures Step(st, raw).explanationBuffer == st.explanationBuffer
    ensures Step(st, raw).inExplanation == st.inExplanation
    ensures Step(st, raw).current.explanation == st.current.explanation
  {
    PatternsExclusive(TrimEnd(raw));
  }

  /**
   * A draft's explanation is only ever set by a blank line that ends
   * explanation mode, to the buffered lines joined by single spaces and
   * trimmed; a header line or a near-header clears it with the draft.
   */
  lemma ExplanationSetOnlyOnBlankLine(st: ParserState, raw: string)
    ensures var e := Step(st, raw).current.explanation;
      e.Some? && e != st.current.explanation ==>
        && st.inExplanation && TrimEnd(raw) == ""
        && e == Some(JoinedExplanation(st.explanationBuffer))
  {
  }

  /** An explanation line enters the buffer without its bullet and without surrounding whitespace. */
  lemma BulletStrippedTrimmed(line: string)
    ensures IsTrimmed(BulletStripped(line))
  {
    var a := LeadingSpace(line);
    if a < |line| && line[a] == '-' {
      TrimIsTrimmed(line[a + 1 + LeadingSpace(line[a + 1..])..]);
    } else {
      TrimIsTrimmed(line);
    }
  }

  /**
   * The buffer only grows in explanation mode, by one bullet-stripped line;
   * otherwise it is kept, or emptied by a flush.
   */
  lemma BufferGrowsOnlyInExplanation(st: ParserState, raw: string)
    ensures var b := Step(st, raw).explanationBuffer;
      || b == st.explanationBuffer
      || b == []
      || (st.inExplanation && b == st.explanationBuffer + [BulletStripped(TrimEnd(raw))])
  {
  }
}
