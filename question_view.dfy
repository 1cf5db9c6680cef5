/**
 * The answer-selection and feedback rules of one question on screen: how a
 * click changes the selected letters, which options are highlighted in study
 * mode, and the verdict shown under the question.
 */
module QuestionView {
  import opened Wrappers
  import opened Seqs
  import opened ParseMarkdown
  import opened ExamContext

  /** `selected.filter(v => v !== value)` */
  function Without(selected: seq<string>, value: string): seq<string> {
    if selected == [] then []
    else
      var last := selected[|selected| - 1];
      Without(selected[..|selected| - 1], value) + (if last != value then [last] else [])
  }

  /** Filtering drops every copy of the value and keeps every other letter as often as it was. */
  lemma {:induction false} WithoutCounts(selected: seq<string>, value: string)
    ensures multiset(Without(selected, value)) == multiset(selected)[value := 0]
  {
    if selected != [] {
      var init := selected[..|selected| - 1];
      WithoutCounts(init, value);
      assert init + [selected[|selected| - 1]] == selected;
    }
  }

  /** Filtering keeps the order of the letters it keeps. */
  lemma {:induction false} WithoutOrder(selected: seq<string>, value: string)
    ensures IsSubseq(Without(selected, value), selected)
  {
    if selected != [] {
      var init := selected[..|selected| - 1];
      var last := selected[|selected| - 1];
      WithoutOrder(init, value);
      assert init + [last] == selected;
      if last != value {
        SubseqAppendBoth(Without(init, value), init, last);
      } else {
        assert Without(selected, value) == Without(init, value) + [];
        assert Without(init, value) + [] == Without(init, value);
        SubseqAppendRight(Without(init, value), init, last);
      }
    }
  }

  /** Filtering out a value that is not there changes nothing. */
  lemma {:induction false} WithoutAbsent(selected: seq<string>, value: string)
    requires value !in selected
    ensures Without(selected, value) == selected
  {
    if selected != [] {
      var init := selected[..|selected| - 1];
      assert selected == init + [selected[|selected| - 1]];
      assert value !in init;
      WithoutAbsent(init, value);
    }
  }

  /**
   * The new selection after clicking `value`: a multiple-choice question
   * toggles it (every copy removed, or appended at the end), a single-choice
   * question selects it alone.
   */
  function NextSelection(selected: seq<string>, multiple: bool, value: string): (r: seq<string>)
    ensures multiple ==> (value in r <==> value !in selected)
    ensures multiple ==> forall other :: other != value ==> multiset(r)[other] == multiset(selected)[other]
    ensures multiple && value !in selected ==> |r| == |selected| + 1 && r[..|selected|] == selected
    ensures !multiple ==> multiset(r) == multiset{value}
  {
    if multiple then
      if value in selected then
        WithoutCounts(selected, value);
        assert value !in multiset(Without(selected, value));
        Without(selected, value)
      else
        assert (selected + [value])[..|selected|] == selected;
        selected + [value]
    else
      [value]
  }

  /** A selected letter clicked again in a multiple-choice question is removed everywhere, the others keeping their order. */
  lemma ToggleOff(selected: seq<string>, value: string)
    requires value in selected
    ensures var r := NextSelection(selected, true, value);
      && value !in r
      && IsSubseq(r, selected)
      && multiset(r) == multiset(selected)[value := 0]
  {
    WithoutCounts(selected, value);
    assert value !in multiset(Without(selected, value));
    WithoutOrder(selected, value);
  }

  /** Clicking an unselected letter twice in a multiple-choice question restores the selection. */
  lemma ToggleTwice(selected: seq<string>, value: string)
    requires value !in selected
    ensures NextSelection(NextSelection(selected, true, value), true, value) == selected
  {
    var once := selected + [value];
    assert value in once;
    assert once[..|selected|] == selected;
    assert Without(once, value) == Without(selected, value);
    WithoutAbsent(selected, value);
  }

  /**
   * `handleChange`: with an exam loaded, the question's selection (empty
   * when unanswered) is replaced by the next selection; without one, nothing
   * changes.
   */
  function HandleChange(exam: Option<ExamState>, q: Question, value: string): (r: Option<ExamState>)
    ensures exam.None? ==> r.None?
    ensures exam.Some? ==>
      && r.Some?
      && q.id in r.value.answers
      && r.value.answers[q.id] == NextSelection(StudentAnswers(exam.value.answers, q.id), q.multiple, value)
      && r.value.(answers := exam.value.answers) == exam.value
      && forall other :: other != q.id && other in exam.value.answers ==>
           other in r.value.answers && r.value.answers[other] == exam.value.answers[other]
  {
    if exam.None? then None
    else
      var selected := StudentAnswers(exam.value.answers, q.id);
      AnswerQuestion(exam, q.id, NextSelection(selected, q.multiple, value))
  }

  /** `isChecked`: whether a letter's checkbox is ticked (an unanswered question ticks nothing). */
  predicate IsChecked(exam: Option<ExamState>, q: Question, letter: string) {
    exam.Some? && q.id in exam.value.answers && letter in exam.value.answers[q.id]
  }

  /**
   * A click on a multiple-choice question flips the clicked letter's checkbox
   * and leaves every other checkbox of that question as it was.
   */
  lemma ClickFlipsOneBox(exam: ExamState, q: Question, value: string, letter: string)
    requires q.multiple
    ensures IsChecked(HandleChange(Some(exam), q, value), q, value) <==> !IsChecked(Some(exam), q, value)
    ensures letter != value ==>
      (IsChecked(HandleChange(Some(exam), q, value), q, letter) <==> IsChecked(Some(exam), q, letter))
  {
    var selected := StudentAnswers(exam.answers, q.id);
    WithoutCounts(selected, value);
    if value in selected {
      assert value !in multiset(Without(selected, value));
    }
    if letter != value {
      assert letter in Without(selected, value) <==> letter in multiset(Without(selected, value));
    }
  }

  /** `exam?.answers[q.id]?.[0] || ""`: the radio group's value. */
  function RadioValue(exam: Option<ExamState>, q: Question): string {
    if exam.Some? && q.id in exam.value.answers && exam.value.answers[q.id] != [] then exam.value.answers[q.id][0]
    else ""
  }

  /** After a click on a single-choice question, the radio group shows the clicked letter. */
  lemma RadioShowsClick(exam: ExamState, q: Question, value: string)
    requires !q.multiple
    ensures RadioValue(HandleChange(Some(exam), q, value), q) == value
  {
  }

  // ---------------------------------------------------------------- study-mode feedback

  datatype Style = Plain | Green | Red

  /** The component's own `mode` prop. */
  datatype ViewMode = TestView | StudyView

  /**
   * `getOptionStyle`: no highlight outside study mode or for an unanswered
   * question (a recorded empty selection still counts as answered); otherwise
   * correct letters are green and selected wrong letters red.
   */
  function OptionStyle(mode: ViewMode, exam: Option<ExamState>, q: Question, letter: string): Style {
    if mode != StudyView || exam.None? || q.id !in exam.value.answers then Plain
    else if letter in q.correctAnswers then Green
    else if letter in exam.value.answers[q.id] then Red
    else Plain
  }

  /** The verdict under the question in study mode, `None` when it is not shown. */
  function StudyVerdict(mode: ViewMode, exam: Option<ExamState>, q: Question): Option<bool> {
    if mode != StudyView || exam.None? || q.id !in exam.value.answers then None
    else
      var selected := exam.value.answers[q.id];
      Some((forall k :: 0 <= k < |q.correctAnswers| ==> q.correctAnswers[k] in selected)
           && |selected| == |q.correctAnswers|)
  }

  /** The study-mode verdict agrees with the scoring rule used when the exam is finished. */
  lemma VerdictMatchesGrading(exam: ExamState, q: Question)
    requires q.id in exam.answers
    ensures StudyVerdict(StudyView, Some(exam), q) == Some(IsCorrect(q, exam.answers))
  {
  }

  /** The highlight of a letter, when shown, is green iff the letter is correct and red iff it is selected but wrong. */
  lemma StyleRule(exam: ExamState, q: Question, letter: string)
    requires q.id in exam.answers
    ensures OptionStyle(StudyView, Some(exam), q, letter) == Green <==> letter in q.correctAnswers
    ensures OptionStyle(StudyView, Some(exam), q, letter) == Red <==>
      letter !in q.correctAnswers && letter in exam.answers[q.id]
  {
  }

  /** Nothing is highlighted outside study mode or before the question is answered. */
  lemma NoStyleUnlessShown(mode: ViewMode, exam: Option<ExamState>, q: Question, letter: string)
    requires mode == TestView || exam.None? || q.id !in exam.value.answers
    ensures OptionStyle(mode, exam, q, letter) == Plain
    ensures StudyVerdict(mode, exam, q).None?
  {
  }

  /** With no repeated correct answer, a green verdict leaves no option red. */
  lemma CorrectVerdictHasNoRed(exam: ExamState, q: Question, letter: string)
    requires q.id in exam.answers && Distinct(q.correctAnswers)
    requires StudyVerdict(StudyView, Some(exam), q) == Some(true)
    ensures OptionStyle(StudyView, Some(exam), q, letter) != Red
  {
    DistinctGrading(q, exam.answers);
    var selected := exam.answers[q.id];
    if letter in selected {
      assert letter in multiset(selected);
      assert letter in multiset(q.correctAnswers);
    }
  }
}
