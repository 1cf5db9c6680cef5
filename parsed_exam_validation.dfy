/**
 * The converter writes each parsed exam as JSON, and the validator reads
 * those files back. This module encodes a parsed exam the way
 * `JSON.stringify` lays it out and shows what the validator makes of it:
 * a parsed question passes exactly when its explanation is at least five
 * UTF-16 units long and every correct answer names one of its options.
 */
module ParsedExamValidation {
  import opened Wrappers
  import opened Text
  import opened ParseMarkdown
  import opened ParseMarkdownProofs
  import opened ValidateExams

  // ---------------------------------------------------------------- the JSON layout

  function EncodeChoice(c: Choice): Json {
    JObj([("letter", JStr(c.letter)), ("text", JStr(c.text))])
  }

  function EncodeOptions(options: seq<Choice>): seq<Json> {
    seq(|options|, i requires 0 <= i < |options| => EncodeChoice(options[i]))
  }

  function EncodeAnswers(answers: seq<string>): seq<Json> {
    seq(|answers|, i requires 0 <= i < |answers| => JStr(answers[i]))
  }

  /** A parsed question's fields, in the order the parser builds the record. */
  function EncodeQuestion(q: Question): Json {
    JObj([("id", JNum(q.id as real)),
          ("question", JStr(q.question)),
          ("options", JArr(EncodeOptions(q.options))),
          ("correctAnswers", JArr(EncodeAnswers(q.correctAnswers))),
          ("explanation", JStr(q.explanation)),
          ("multiple", JBool(q.multiple))])
  }

  function EncodeExam(e: Exam): Json {
    JObj([("title", JStr(e.title)),
          ("questions", JArr(EncodeQuestions(e.questions)))])
  }

  // ---------------------------------------------------------------- what the validator asks of a parsed question

  predicate HasOption(q: Question, answer: string) {
    exists i :: 0 <= i < |q.options| && q.options[i].letter == answer
  }

  /** The validator's demands, in the parser's terms. */
  predicate ValidParsed(q: Question) {
    && Utf16Length(q.explanation) >= 5
    && forall k :: 0 <= k < |q.correctAnswers| ==> HasOption(q, q.correctAnswers[k])
  }

  /** An encoded option carries the answer's letter iff its letter is the answer. */
  lemma ChoiceHasLetter(c: Choice, answer: string)
    ensures HasLetter(EncodeChoice(c).entries, JStr(answer)) <==> c.letter == answer
  {
    assert Get(EncodeChoice(c).entries, "letter") == Some(JStr(c.letter));
  }

  /** `find` over the encoded options succeeds iff some option has the answer's letter. */
  lemma ResolvesEncoded(q: Question, answer: string)
    ensures Resolves(EncodeOptions(q.options), JStr(answer)) <==> HasOption(q, answer)
  {
    var options := EncodeOptions(q.options);
    if HasOption(q, answer) {
      var i :| 0 <= i < |q.options| && q.options[i].letter == answer;
      ChoiceHasLetter(q.options[i], answer);
      assert options[i].JObj? && HasLetter(options[i].entries, JStr(answer));
      assert forall j :: 0 <= j < i ==> !options[j].JNull?;
    }
    if Resolves(options, JStr(answer)) {
      var k :| 0 <= k < |options| && options[k].JObj? && HasLetter(options[k].entries, JStr(answer))
        && forall j :: 0 <= j < k ==> !options[j].JNull?;
      ChoiceHasLetter(q.options[k], answer);
    }
  }

  /** The names of the fields the converter writes for a question. */
  const FieldNames: seq<string> := ["id", "question", "options", "correctAnswers", "explanation", "multiple"]

  /** Each field name is made of word characters, so sanitising keeps it. */
  lemma CleanFieldName(key: string)
    requires key in FieldNames
    ensures Sanitize(key) == key
  {
    if key == "id" {
      SanitizeKeepsWords("id");
    } else if key == "question" {
      SanitizeKeepsWords("question");
    } else if key == "options" {
      SanitizeKeepsWords("options");
    } else if key == "correctAnswers" {
      SanitizeKeepsWords("correctAnswers");
    } else if key == "explanation" {
      SanitizeKeepsWords("explanation");
    } else {
      SanitizeKeepsWords("multiple");
    }
  }

  /** A six-field record whose field names are all clean reads the same through `cleanQ`. */
  lemma CleanSixFields(k0: string, k1: string, k2: string, k3: string, k4: string, k5: string,
                       v0: Json, v1: Json, v2: Json, v3: Json, v4: Json, v5: Json, key: string)
    requires Sanitize(k0) == k0 && Sanitize(k1) == k1 && Sanitize(k2) == k2
    requires Sanitize(k3) == k3 && Sanitize(k4) == k4 && Sanitize(k5) == k5
    ensures var entries := [(k0, v0), (k1, v1), (k2, v2), (k3, v3), (k4, v4), (k5, v5)];
      Lookup(CleanView(entries), key) == Get(entries, key)
  {
    var entries := [(k0, v0), (k1, v1), (k2, v2), (k3, v3), (k4, v4), (k5, v5)];
    CleanViewOfCleanKeys(entries, key);
  }

  /** Reading a property of a record with one more field at the end. */
  lemma GetSnoc(entries: seq<(string, Json)>, k: string, v: Json, key: string)
    ensures Get(entries + [(k, v)], key) == if key == k then Some(v) else Get(entries, key)
  {
    assert (entries + [(k, v)])[..|entries|] == entries;
  }

  /** A property read on a six-field record: the last field with that name. */
  lemma GetSixFields(k0: string, k1: string, k2: string, k3: string, k4: string, k5: string,
                     v0: Json, v1: Json, v2: Json, v3: Json, v4: Json, v5: Json, key: string)
    ensures Get([(k0, v0), (k1, v1), (k2, v2), (k3, v3), (k4, v4), (k5, v5)], key) ==
      if key == k5 then Some(v5) else if key == k4 then Some(v4) else if key == k3 then Some(v3)
      else if key == k2 then Some(v2) else if key == k1 then Some(v1) else if key == k0 then Some(v0)
      else None
  {
    var e1 := [] + [(k0, v0)];
    var e2 := e1 + [(k1, v1)];
    var e3 := e2 + [(k2, v2)];
    var e4 := e3 + [(k3, v3)];
    var e5 := e4 + [(k4, v4)];
    GetSnoc([], k0, v0, key);
    GetSnoc(e1, k1, v1, key);
    GetSnoc(e2, k2, v2, key);
    GetSnoc(e3, k3, v3, key);
    GetSnoc(e4, k4, v4, key);
    GetSnoc(e5, k5, v5, key);
    assert e5 + [(k5, v5)] == [(k0, v0), (k1, v1), (k2, v2), (k3, v3), (k4, v4), (k5, v5)];
  }

  /** The encoded question's fields, read by name. */
  lemma EncodedFields(q: Question, key: string)
    ensures Get(EncodeQuestion(q).entries, key) ==
      if key == "multiple" then Some(JBool(q.multiple))
      else if key == "explanation" then Some(JStr(q.explanation))
      else if key == "correctAnswers" then Some(JArr(EncodeAnswers(q.correctAnswers)))
      else if key == "options" then Some(JArr(EncodeOptions(q.options)))
      else if key == "question" then Some(JStr(q.question))
      else if key == "id" then Some(JNum(q.id as real))
      else None
  {
    GetSixFields("id", "question", "options", "correctAnswers", "explanation", "multiple",
                 JNum(q.id as real), JStr(q.question), JArr(EncodeOptions(q.options)),
                 JArr(EncodeAnswers(q.correctAnswers)), JStr(q.explanation), JBool(q.multiple), key);
  }

  /** The encoded record's keys are already clean, so `cleanQ` reads the record's own fields. */
  lemma EncodedView(q: Question, key: string)
    ensures Lookup(CleanView(EncodeQuestion(q).entries), key) == Get(EncodeQuestion(q).entries, key)
  {
    CleanFieldName(FieldNames[0]);
    CleanFieldName(FieldNames[1]);
    CleanFieldName(FieldNames[2]);
    CleanFieldName(FieldNames[3]);
    CleanFieldName(FieldNames[4]);
    CleanFieldName(FieldNames[5]);
    CleanSixFields("id", "question", "options", "correctAnswers", "explanation", "multiple",
                   JNum(q.id as real), JStr(q.question), JArr(EncodeOptions(q.options)),
                   JArr(EncodeAnswers(q.correctAnswers)), JStr(q.explanation), JBool(q.multiple), key);
  }

  /** What the validator reads from an encoded question, both raw and through `cleanQ`. */
  lemma EncodedReads(q: Question)
    ensures var entries := EncodeQuestion(q).entries; var clean := CleanView(entries);
      && Get(entries, "question") == Lookup(clean, "question") == Some(JStr(q.question))
      && Get(entries, "options") == Lookup(clean, "options") == Some(JArr(EncodeOptions(q.options)))
      && Get(entries, "correctAnswers") == Lookup(clean, "correctAnswers") == Some(JArr(EncodeAnswers(q.correctAnswers)))
      && Lookup(clean, "explanation") == Some(JStr(q.explanation))
  {
    EncodedView(q, "question");
    EncodedView(q, "options");
    EncodedView(q, "correctAnswers");
    EncodedView(q, "explanation");
    EncodedFields(q, "question");
    EncodedFields(q, "options");
    EncodedFields(q, "correctAnswers");
    EncodedFields(q, "explanation");
  }

  /** A well-formed parsed question, encoded, meets the validator's conditions iff it is `ValidParsed`. */
  lemma ParsedQuestionAccepted(q: Question)
    requires WellFormed(q)
    ensures Accepted(EncodeQuestion(q)) <==> ValidParsed(q)
  {
    EncodedReads(q);
    TrimOfTrimmed(q.explanation);
    forall k | 0 <= k < |q.correctAnswers|
      ensures Resolves(EncodeOptions(q.options), EncodeAnswers(q.correctAnswers)[k]) <==> HasOption(q, q.correctAnswers[k])
    {
      ResolvesEncoded(q, q.correctAnswers[k]);
    }
  }

  /** A well-formed parsed question, written out and read back, passes the validator iff it is `ValidParsed`. */
  lemma ParsedQuestionChecked(q: Question, index: nat)
    requires WellFormed(q)
    ensures CheckQuestion(EncodeQuestion(q), index).None? <==> ValidParsed(q)
  {
    ParsedQuestionAccepted(q);
    CheckQuestionSpec(EncodeQuestion(q), index);
  }

  function EncodeQuestions(questions: seq<Question>): seq<Json> {
    seq(|questions|, i requires 0 <= i < |questions| => EncodeQuestion(questions[i]))
  }

  /** The validator finds the encoded questions under `questions`, as an array. */
  lemma EncodedExamQuestions(exam: Exam)
    ensures QuestionsOf(EncodeExam(exam)) == Some(EncodeQuestions(exam.questions))
  {
    var entries := EncodeExam(exam).entries;
    assert entries == [("title", JStr(exam.title))] + [("questions", JArr(EncodeQuestions(exam.questions)))];
    GetSnoc([("title", JStr(exam.title))], "questions", JArr(EncodeQuestions(exam.questions)), "questions");
  }

  /** An exam of well-formed questions, written out and read back, passes iff every question is `ValidParsed`. */
  lemma EncodedExamChecked(exam: Exam)
    requires forall i :: 0 <= i < |exam.questions| ==> WellFormed(exam.questions[i])
    ensures DocumentOutcome(Some(EncodeExam(exam))).None? <==>
      forall i :: 0 <= i < |exam.questions| ==> ValidParsed(exam.questions[i])
  {
    EncodedExamQuestions(exam);
    var outcomes := Outcomes(EncodeQuestions(exam.questions));
    FirstFailureSpec(outcomes);
    forall i | 0 <= i < |exam.questions|
      ensures outcomes[i].None? <==> ValidParsed(exam.questions[i])
    {
      ParsedQuestionChecked(exam.questions[i], i);
    }
  }

  /**
   * What the parser produces, written out by the converter and read back by
   * the validator, passes iff every question is `ValidParsed`.
   */
  lemma ParsedExamChecked(content: string, title: Option<string>)
    ensures DocumentOutcome(Some(EncodeExam(Parse(content, title)))).None? <==>
      forall i :: 0 <= i < |Parse(content, title).questions| ==> ValidParsed(Parse(content, title).questions[i])
  {
    ParseEmitsWellFormed(content, title);
    EncodedExamChecked(Parse(content, title));
  }
}
