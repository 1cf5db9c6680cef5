/**
 * The exam session: loading an exam (shuffled in test mode), recording
 * answers, the countdown, and grading when the exam is finished.
 *
 * The session's `exam` is `None` before any exam is loaded. The fetched exam
 * file, the clock and the stored history are parameters; `Math.random` is an
 * arbitrary choice of index.
 */
module ExamContext {
  import opened Wrappers
  import opened Seqs
  import opened ParseMarkdown

  datatype Mode = Test | Study

  datatype ExamState = ExamState(
    title: string,
    questions: seq<Question>,
    answers: map<int, seq<string>>,   // question id to the selected letters
    mode: Mode,
    startTime: Option<int>,
    timeLeft: int)

  /** The countdown, in seconds, that a loaded exam starts with. */
  const ExamDuration := 3600

  // ---------------------------------------------------------------- shuffling

  /**
   * `shuffleArray`: a Fisher–Yates pass over a copy of the input, from the
   * last position down to 1, swapping each position with an arbitrary one at
   * or before it. The input is left as it was and the result holds the same
   * elements.
   */
  method ShuffleArray<T>(items: seq<T>) returns (shuffled: seq<T>)
    ensures |shuffled| == |items|
    ensures multiset(shuffled) == multiset(items)
  {
    var copy := new T[|items|](k requires 0 <= k < |items| => items[k]);
    assert copy[..] == items;
    var i := copy.Length - 1;
    while i > 0
      invariant -1 <= i < copy.Length
      invariant multiset(copy[..]) == multiset(items)
    {
      var j :| 0 <= j <= i;   // Math.floor(Math.random() * (i + 1))
      copy[i], copy[j] := copy[j], copy[i];
      i := i - 1;
    }
    shuffled := copy[..];
  }

  /** A question with its options forgotten, and the options as a multiset: what test-mode shuffling keeps. */
  function Canon(q: Question): (Question, multiset<Choice>) {
    (q.(options := []), multiset(q.options))
  }

  /** `questions.map(q => ({...q, options: shuffleArray(q.options)}))` */
  method ShuffleOptions(questions: seq<Question>) returns (shuffled: seq<Question>)
    ensures MapSeq(shuffled, Canon) == MapSeq(questions, Canon)
  {
    shuffled := [];
    for k := 0 to |questions|
      invariant |shuffled| == k
      invariant forall m :: 0 <= m < k ==> Canon(shuffled[m]) == Canon(questions[m])
    {
      var options := ShuffleArray(questions[k].options);
      shuffled := shuffled + [questions[k].(options := options)];
    }
  }

  /**
   * `loadExam` once the exam file is fetched: in test mode the questions are
   * shuffled and so are each question's options; answers start empty and the
   * countdown at one hour.
   */
  method LoadExam(data: Exam, mode: Mode, now: int) returns (exam: ExamState)
    ensures exam.title == data.title && exam.answers == map[] && exam.mode == mode
    ensures exam.startTime == Some(now) && exam.timeLeft == ExamDuration
    ensures |exam.questions| == |data.questions|
    ensures mode == Study ==> exam.questions == data.questions
    ensures multiset(MapSeq(exam.questions, Canon)) == multiset(MapSeq(data.questions, Canon))
  {
    var questions := data.questions;
    if mode == Test {
      var order := ShuffleArray(data.questions);
      MapKeepsMultiset(order, data.questions, Canon);
      questions := ShuffleOptions(order);
    }
    exam := ExamState(data.title, questions, map[], mode, Some(now), ExamDuration);
  }

  // ---------------------------------------------------------------- answering and the countdown

  /** `answerQuestion`: the selection for `id` is replaced; nothing happens without an exam. */
  function AnswerQuestion(exam: Option<ExamState>, id: int, selected: seq<string>): (r: Option<ExamState>)
    ensures r.Some? <==> exam.Some?
    ensures r.Some? ==> id in r.value.answers && r.value.answers[id] == selected
    ensures r.Some? ==> forall other :: other != id ==>
      (other in r.value.answers <==> other in exam.value.answers)
      && (other in r.value.answers ==> r.value.answers[other] == exam.value.answers[other])
    ensures r.Some? ==> r.value.(answers := exam.value.answers) == exam.value
  {
    match exam
    case None => None
    case Some(e) => Some(e.(answers := e.answers[id := selected]))
  }

  /** `setTimeLeft`: only the countdown changes, and a missing exam stays missing. */
  function SetTimeLeft(exam: Option<ExamState>, time: int): (r: Option<ExamState>)
    ensures r.Some? <==> exam.Some?
    ensures r.Some? ==> r.value.timeLeft == time && r.value.(timeLeft := exam.value.timeLeft) == exam.value
  {
    match exam
    case None => None
    case Some(e) => Some(e.(timeLeft := time))
  }

  // ---------------------------------------------------------------- grading

  /** `exam.answers[q.id] || []` */
  function StudentAnswers(answers: map<int, seq<string>>, id: int): seq<string> {
    if id in answers then answers[id] else []
  }

  /** The scoring rule: as many selected letters as correct ones, and every correct one among them. */
  predicate IsCorrect(q: Question, answers: map<int, seq<string>>) {
    var student := StudentAnswers(answers, q.id);
    |q.correctAnswers| == |student| && forall k :: 0 <= k < |q.correctAnswers| ==> q.correctAnswers[k] in student
  }

  /** `questions.filter(IsCorrect).length` */
  function CorrectCount(questions: seq<Question>, answers: map<int, seq<string>>): (n: nat)
    ensures n <= |questions|
  {
    if questions == [] then 0
    else
      CorrectCount(questions[..|questions| - 1], answers)
      + (if IsCorrect(questions[|questions| - 1], answers) then 1 else 0)
  }

  /** Every question is counted iff every question is correct. */
  lemma {:induction false} CorrectCountAll(questions: seq<Question>, answers: map<int, seq<string>>)
    ensures CorrectCount(questions, answers) == |questions| <==> forall k :: 0 <= k < |questions| ==> IsCorrect(questions[k], answers)
  {
    if questions != [] {
      var init := questions[..|questions| - 1];
      CorrectCountAll(init, answers);
      assert forall k :: 0 <= k < |init| ==> init[k] == questions[k];
    }
  }

  /** Nothing is counted iff no question is correct. */
  lemma {:induction false} CorrectCountNone(questions: seq<Question>, answers: map<int, seq<string>>)
    ensures CorrectCount(questions, answers) == 0 <==> forall k :: 0 <= k < |questions| ==> !IsCorrect(questions[k], answers)
  {
    if questions != [] {
      var init := questions[..|questions| - 1];
      CorrectCountNone(init, answers);
      assert forall k :: 0 <= k < |init| ==> init[k] == questions[k];
    }
  }

  /** An unanswered question is graded against an empty selection: it is correct only if it has no correct answers. */
  lemma UnansweredQuestion(q: Question, answers: map<int, seq<string>>)
    requires q.id !in answers
    ensures IsCorrect(q, answers) <==> q.correctAnswers == []
  {
  }

  predicate Distinct<T(==)>(s: seq<T>) {
    forall i, j :: 0 <= i < j < |s| ==> s[i] != s[j]
  }

  /**
   * With no repeated correct answer, a question is correct exactly when the
   * selection holds the correct answers, each once, in any order.
   */
  lemma DistinctGrading(q: Question, answers: map<int, seq<string>>)
    requires Distinct(q.correctAnswers)
    ensures IsCorrect(q, answers) <==> multiset(StudentAnswers(answers, q.id)) == multiset(q.correctAnswers)
  {
    var student := StudentAnswers(answers, q.id);
    var correct := q.correctAnswers;
    if IsCorrect(q, answers) {
      DistinctIncluded(correct, student);
      SubmultisetSameSize(multiset(correct), multiset(student));
    }
    if multiset(student) == multiset(correct) {
      assert |student| == |multiset(student)| == |multiset(correct)| == |correct|;
      forall k | 0 <= k < |correct|
        ensures correct[k] in student
      {
        assert correct[k] in multiset(correct);
      }
    }
  }

  /**
   * Without the no-repeat condition the rule is weaker than a multiset match:
   * a question whose correct answers are "A" twice is graded correct for the
   * selection "A", "B".
   */
  lemma RepeatedCorrectAnswer(q: Question, answers: map<int, seq<string>>)
    requires q.correctAnswers == ["A", "A"]
    requires q.id in answers && answers[q.id] == ["A", "B"]
    ensures IsCorrect(q, answers)
    ensures multiset(StudentAnswers(answers, q.id)) != multiset(q.correctAnswers)
  {
    assert "B" in multiset(StudentAnswers(answers, q.id));
  }

  /** A sequence without repeats whose every element occurs in `t` is a sub-multiset of `t`. */
  lemma {:induction false} DistinctIncluded<T>(s: seq<T>, t: seq<T>)
    requires Distinct(s)
    requires forall k :: 0 <= k < |s| ==> s[k] in t
    ensures multiset(s) <= multiset(t)
  {
    if s != [] {
      var init := s[..|s| - 1];
      var x := s[|s| - 1];
      DistinctIncluded(init, t);
      assert s == init + [x];
      assert x !in init;
      assert multiset(init)[x] == 0;
      assert x in multiset(t);
    }
  }

  /** A sub-multiset as large as the whole is the whole. */
  lemma SubmultisetSameSize<T>(a: multiset<T>, b: multiset<T>)
    requires a <= b && |a| >= |b|
    ensures a == b
  {
    var d := b - a;
    assert b == a + d;
    assert |d| == 0;
  }

  /** Answering one question does not change the grading of a question with another id. */
  lemma AnswerKeepsOtherGrades(exam: ExamState, id: int, selected: seq<string>, q: Question)
    requires q.id != id
    ensures IsCorrect(q, AnswerQuestion(Some(exam), id, selected).value.answers) == IsCorrect(q, exam.answers)
  {
    assert StudentAnswers(AnswerQuestion(Some(exam), id, selected).value.answers, q.id) == StudentAnswers(exam.answers, q.id);
  }

  // ---------------------------------------------------------------- finishing

  /** An entry of the stored history; the score percentage is not modelled. */
  datatype Attempt = Attempt(
    id: string,
    title: string,
    date: string,
    correct: nat,
    total: nat,
    userAnswers: map<int, seq<string>>,
    questionSnapshot: seq<Question>)

  datatype FinishResult = FinishResult(correctCount: nat, total: nat)

  /**
   * `finishExam`: grades the exam and puts the new attempt in front of the
   * stored history; `id` and `date` are the clock's readings. Without an
   * exam, nothing is graded and the history is not touched.
   */
  function FinishExam(exam: Option<ExamState>, history: seq<Attempt>, id: string, date: string)
    : (r: (FinishResult, seq<Attempt>))
    ensures exam.None? ==> r == (FinishResult(0, 0), history)
    ensures exam.Some? ==>
      && r.0.total == |exam.value.questions|
      && r.0.correctCount == CorrectCount(exam.value.questions, exam.value.answers)
      && r.0.correctCount <= r.0.total
      && |r.1| == |history| + 1 && r.1[1..] == history
      && r.1[0] == Attempt(id, exam.value.title, date, r.0.correctCount, r.0.total,
                           exam.value.answers, exam.value.questions)
  {
    match exam
    case None => (FinishResult(0, 0), history)
    case Some(e) =>
      var correctCount := CorrectCount(e.questions, e.answers);
      var attempt := Attempt(id, e.title, date, correctCount, |e.questions|, e.answers, e.questions);
      (FinishResult(correctCount, |e.questions|), [attempt] + history)
  }
}
