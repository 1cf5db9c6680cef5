/**
 * The exam-file validator: picks the exam files of a directory listing,
 * decodes each one, and checks its questions one by one, stopping a file at
 * its first failing question and remembering across files whether any failed.
 *
 * A decoded JSON document is a `Json` value. An object keeps its entries as
 * they appear in the text, repeats included. `JSON.parse` makes one property
 * per key: reading it gives the key's last value (`Get`), and `Object.keys`
 * lists it at the position of its first entry (`ObjectKeys`). JavaScript's truthiness, `===` and the
 * `TypeError`s a property access or method call on the wrong kind of value
 * raises are written out, because the validator's checks run into them on
 * malformed records.
 */
module ValidateExams {
  import opened Wrappers
  import opened Text
  import opened Seqs

  datatype Json =
    | JNull
    | JBool(b: bool)
    | JNum(n: real)
    | JStr(s: string)
    | JArr(items: seq<Json>)
    | JObj(entries: seq<(string, Json)>)

  /** JavaScript truthiness of a decoded value. */
  predicate Truthy(v: Json) {
    match v
    case JNull => false
    case JBool(b) => b
    case JNum(n) => n != 0.0
    case JStr(s) => s != ""
    case _ => true
  }

  /** Truthiness of a property read, where an absent property is `undefined`. */
  predicate Present(v: Option<Json>) {
    v.Some? && Truthy(v.value)
  }

  /**
   * `a === b` on decoded values: primitives compare by value, and two arrays
   * or objects produced by the decoder are never the same object.
   */
  predicate StrictEquals(a: Json, b: Json) {
    match (a, b)
    case (JNull, JNull) => true
    case (JBool(x), JBool(y)) => x == y
    case (JNum(x), JNum(y)) => x == y
    case (JStr(x), JStr(y)) => x == y
    case _ => false
  }

  /** `obj[key]` on a decoded object: the value of the last entry with that key. */
  function Get(entries: seq<(string, Json)>, key: string): Option<Json> {
    if entries == [] then None
    else if entries[|entries| - 1].0 == key then Some(entries[|entries| - 1].1)
    else Get(entries[..|entries| - 1], key)
  }

  /** A key reads as absent iff no entry has it. */
  lemma {:induction false} GetAbsent(entries: seq<(string, Json)>, key: string)
    ensures Get(entries, key).None? <==> forall i :: 0 <= i < |entries| ==> entries[i].0 != key
  {
    if entries != [] {
      var init := entries[..|entries| - 1];
      GetAbsent(init, key);
      assert forall i :: 0 <= i < |init| ==> init[i] == entries[i];
    }
  }

  /** A present key reads the value of the last entry with that key. */
  lemma {:induction false} GetLast(entries: seq<(string, Json)>, key: string)
    requires Get(entries, key).Some?
    ensures exists i ::
      && 0 <= i < |entries| && entries[i] == (key, Get(entries, key).value)
      && forall j :: i < j < |entries| ==> entries[j].0 != key
  {
    var last := |entries| - 1;
    var init := entries[..last];
    if entries[last].0 != key {
      GetLast(init, key);
      var i :| 0 <= i < |init| && init[i] == (key, Get(init, key).value)
        && forall j :: i < j < |init| ==> init[j].0 != key;
      assert entries[i] == init[i];
      assert forall j :: i < j < last ==> entries[j] == init[j];
      assert forall j :: i < j < |entries| ==> entries[j].0 != key;
    } else {
      assert entries[last] == (key, Get(entries, key).value);
    }
  }

  // ---------------------------------------------------------------- key sanitisation

  /** `\w`: the characters `[A-Za-z0-9_]`. */
  predicate IsWordChar(c: char) {
    IsAsciiLetter(c) || IsDigit(c) || c == '_'
  }

  /** `key.replace(/[^\w]/g, "")` */
  function Sanitize(key: string): string {
    if key == [] then []
    else
      var last := key[|key| - 1];
      Sanitize(key[..|key| - 1]) + (if IsWordChar(last) then [last] else [])
  }

  /**
   * Sanitising works character by character: it keeps a word character,
   * drops any other, and distributes over concatenation.
   */
  lemma {:induction false} SanitizeAppend(a: string, b: string)
    ensures Sanitize(a + b) == Sanitize(a) + Sanitize(b)
    decreases |b|
  {
    if b == [] {
      assert a + b == a;
    } else {
      var b' := b[..|b| - 1];
      assert (a + b)[..|a + b| - 1] == a + b';
      SanitizeAppend(a, b');
    }
  }

  /** A single character survives sanitising exactly when it is a word character. */
  lemma SanitizeChar(c: char)
    ensures Sanitize([c]) == (if IsWordChar(c) then [c] else [])
  {
    assert [c][..0] == [];
  }

  /** The sanitised key is made of word characters only. */
  lemma {:induction false} SanitizeWordChars(key: string)
    ensures forall i :: 0 <= i < |Sanitize(key)| ==> IsWordChar(Sanitize(key)[i])
  {
    if key != [] {
      SanitizeWordChars(key[..|key| - 1]);
    }
  }

  /** The sanitised key keeps the order of the key's characters. */
  lemma {:induction false} SanitizeSubseq(key: string)
    ensures IsSubseq(Sanitize(key), key)
  {
    if key != [] {
      var init := key[..|key| - 1];
      var last := key[|key| - 1];
      SanitizeSubseq(init);
      assert init + [last] == key;
      if IsWordChar(last) {
        assert Sanitize(key) == Sanitize(init) + [last];
        SubseqAppendBoth(Sanitize(init), init, last);
      } else {
        assert Sanitize(key) == Sanitize(init) + [];
        assert Sanitize(init) + [] == Sanitize(init);
        SubseqAppendRight(Sanitize(init), init, last);
      }
    }
  }

  /** A key made of word characters, such as `question` or `correctAnswers`, is its own sanitised form. */
  lemma {:induction false} SanitizeKeepsWords(key: string)
    requires forall i :: 0 <= i < |key| ==> IsWordChar(key[i])
    ensures Sanitize(key) == key
  {
    if key != [] {
      var init := key[..|key| - 1];
      SanitizeKeepsWords(init);
      assert init + [key[|key| - 1]] == key;
    }
  }

  /**
   * `Object.keys(q)` of a decoded object: every key once, in the order of
   * its first entry. A repeated key keeps its first position and reads its
   * last value (`Get`).
   */
  function ObjectKeys(entries: seq<(string, Json)>): seq<string> {
    if entries == [] then []
    else
      var keys := ObjectKeys(entries[..|entries| - 1]);
      var k := entries[|entries| - 1].0;
      if k in keys then keys else keys + [k]
  }

  /** A key is listed by `Object.keys` iff reading it gives a value. */
  lemma {:induction false} ObjectKeysPresent(entries: seq<(string, Json)>)
    ensures forall k :: k in ObjectKeys(entries) <==> Get(entries, k).Some?
  {
    if entries != [] {
      ObjectKeysPresent(entries[..|entries| - 1]);
    }
  }

  /** `Object.keys` lists no key twice. */
  lemma {:induction false} ObjectKeysDistinct(entries: seq<(string, Json)>)
    ensures forall i, j :: 0 <= i < j < |ObjectKeys(entries)| ==> ObjectKeys(entries)[i] != ObjectKeys(entries)[j]
  {
    if entries != [] {
      var init := entries[..|entries| - 1];
      var k := entries[|entries| - 1].0;
      ObjectKeysDistinct(init);
      var before := ObjectKeys(init);
      if k !in before {
        var keys := before + [k];
        assert ObjectKeys(entries) == keys;
        forall i, j | 0 <= i < j < |keys|
          ensures keys[i] != keys[j]
        {
          assert keys[i] == before[i];
          if j == |before| {
            assert keys[j] == k;
            assert before[i] in before;
          } else {
            assert keys[j] == before[j];
            assert before[i] != before[j];
          }
        }
      }
    }
  }

  /** Later entries only add keys at the end: the keys of a prefix of the text come first, in the same order. */
  lemma {:induction false} ObjectKeysPrefix(entries: seq<(string, Json)>, n: nat)
    requires n <= |entries|
    ensures ObjectKeys(entries[..n]) <= ObjectKeys(entries)
    decreases |entries| - n
  {
    if n < |entries| {
      ObjectKeysPrefix(entries, n + 1);
      assert entries[..n + 1][..n] == entries[..n];
    } else {
      assert entries[..n] == entries;
    }
  }

  /** The `forEach` over the given keys, each sanitised and mapped to the value `q[key]` reads. */
  function CleanFrom(entries: seq<(string, Json)>, keys: seq<string>): map<string, Json>
    requires forall j :: 0 <= j < |keys| ==> Get(entries, keys[j]).Some?
  {
    if keys == [] then map[]
    else
      var k := keys[|keys| - 1];
      CleanFrom(entries, keys[..|keys| - 1])[Sanitize(k) := Get(entries, k).value]
  }

  /**
   * The sanitised view `cleanQ`: every key of `Object.keys(q)`, sanitised,
   * maps to the key's value; of two keys that sanitise alike, the one later
   * in `Object.keys` order wins.
   */
  function CleanView(entries: seq<(string, Json)>): map<string, Json> {
    ObjectKeysPresent(entries);
    CleanFrom(entries, ObjectKeys(entries))
  }

  /** The keys of `CleanFrom` are the sanitised given keys. */
  lemma {:induction false} CleanFromKeys(entries: seq<(string, Json)>, keys: seq<string>, k: string)
    requires forall j :: 0 <= j < |keys| ==> Get(entries, keys[j]).Some?
    ensures k in CleanFrom(entries, keys) <==> exists j :: 0 <= j < |keys| && Sanitize(keys[j]) == k
  {
    if keys != [] {
      var init := keys[..|keys| - 1];
      CleanFromKeys(entries, init, k);
      if k in CleanFrom(entries, init) {
        var j :| 0 <= j < |init| && Sanitize(init[j]) == k;
        assert keys[j] == init[j];
      }
      if exists j :: 0 <= j < |keys| && Sanitize(keys[j]) == k {
        var j :| 0 <= j < |keys| && Sanitize(keys[j]) == k;
        if j < |init| {
          assert init[j] == keys[j];
        }
      }
    }
  }

  /** A sanitised key is present iff some raw key sanitises to it. */
  lemma CleanViewKeys(entries: seq<(string, Json)>, k: string)
    ensures k in CleanView(entries) <==> exists i :: 0 <= i < |entries| && Sanitize(entries[i].0) == k
  {
    var keys := ObjectKeys(entries);
    ObjectKeysPresent(entries);
    CleanFromKeys(entries, keys, k);
    if exists j :: 0 <= j < |keys| && Sanitize(keys[j]) == k {
      var j :| 0 <= j < |keys| && Sanitize(keys[j]) == k;
      GetLast(entries, keys[j]);
    }
    if exists i :: 0 <= i < |entries| && Sanitize(entries[i].0) == k {
      var i :| 0 <= i < |entries| && Sanitize(entries[i].0) == k;
      GetAbsent(entries, entries[i].0);
      assert entries[i].0 in keys;
    }
  }

  /** A present sanitised key of `CleanFrom` holds the value of the last given key that sanitises to it. */
  lemma {:induction false} CleanFromLast(entries: seq<(string, Json)>, keys: seq<string>, k: string)
    requires forall j :: 0 <= j < |keys| ==> Get(entries, keys[j]).Some?
    requires k in CleanFrom(entries, keys)
    ensures exists j ::
      && 0 <= j < |keys| && Sanitize(keys[j]) == k && Get(entries, keys[j]) == Some(CleanFrom(entries, keys)[k])
      && forall m :: j < m < |keys| ==> Sanitize(keys[m]) != k
  {
    var last := |keys| - 1;
    var init := keys[..last];
    if Sanitize(keys[last]) != k {
      CleanFromLast(entries, init, k);
      var j :| 0 <= j < |init| && Sanitize(init[j]) == k && Get(entries, init[j]) == Some(CleanFrom(entries, init)[k])
        && forall m :: j < m < |init| ==> Sanitize(init[m]) != k;
      assert keys[j] == init[j];
      assert forall m :: j < m < last ==> keys[m] == init[m];
      assert forall m :: j < m < |keys| ==> Sanitize(keys[m]) != k;
    } else {
      assert CleanFrom(entries, keys)[k] == Get(entries, keys[last]).value;
    }
  }

  /**
   * A present sanitised key holds the value `q[key]` reads for the last key,
   * in `Object.keys` order, that sanitises to it.
   */
  lemma CleanViewLast(entries: seq<(string, Json)>, k: string)
    requires k in CleanView(entries)
    ensures var keys := ObjectKeys(entries);
      exists j ::
        && 0 <= j < |keys| && Sanitize(keys[j]) == k && Get(entries, keys[j]) == Some(CleanView(entries)[k])
        && forall m :: j < m < |keys| ==> Sanitize(keys[m]) != k
  {
    ObjectKeysPresent(entries);
    assert CleanView(entries) == CleanFrom(entries, ObjectKeys(entries));
    CleanFromLast(entries, ObjectKeys(entries), k);
  }

  /**
   * A repeated key keeps the position of its first entry: for the entries
   * `a: x`, `b: y`, `a: z`, where `a` and `b` sanitise alike, `cleanQ` holds
   * `b`'s value, although the last entry in the text that sanitises to it is `a`'s.
   */
  lemma RepeatedKeyKeepsFirstPosition(a: string, b: string, x: Json, y: Json, z: Json)
    requires a != b && Sanitize(a) == Sanitize(b)
    ensures ObjectKeys([(a, x), (b, y), (a, z)]) == [a, b]
    ensures Lookup(CleanView([(a, x), (b, y), (a, z)]), Sanitize(a)) == Some(y)
  {
    var entries := [(a, x), (b, y), (a, z)];
    assert entries[..2] == [(a, x), (b, y)];
    assert entries[..2][..1] == [(a, x)];
    assert [(a, x)][..0] == [];
    assert ObjectKeys([(a, x)]) == [a];
    assert ObjectKeys(entries[..2]) == [a, b];
    assert ObjectKeys(entries) == [a, b];
    assert Get(entries, b) == Some(y);
  }

  /** The loop over `Object.keys(q)` that builds `cleanQ` one key at a time. */
  method BuildCleanView(entries: seq<(string, Json)>) returns (cleanQ: map<string, Json>)
    ensures cleanQ == CleanView(entries)
  {
    var keys := ObjectKeys(entries);
    ObjectKeysPresent(entries);
    cleanQ := map[];
    for i := 0 to |keys|
      invariant cleanQ == CleanFrom(entries, keys[..i])
    {
      assert keys[..i + 1][..i] == keys[..i];
      cleanQ := cleanQ[Sanitize(keys[i]) := Get(entries, keys[i]).value];
    }
    assert keys[..|keys|] == keys;
  }

  /** `cleanQ[key]` for clean keys: the given keys' reads, absent for any other key. */
  lemma {:induction false} CleanFromOfCleanKeys(entries: seq<(string, Json)>, keys: seq<string>, key: string)
    requires forall j :: 0 <= j < |keys| ==> Get(entries, keys[j]).Some?
    requires forall j :: 0 <= j < |keys| ==> Sanitize(keys[j]) == keys[j]
    ensures Lookup(CleanFrom(entries, keys), key) == if key in keys then Get(entries, key) else None
  {
    if keys != [] {
      CleanFromOfCleanKeys(entries, keys[..|keys| - 1], key);
    }
  }

  /** When no raw key changes under sanitising, `cleanQ[key]` reads what `q[key]` reads. */
  lemma CleanViewOfCleanKeys(entries: seq<(string, Json)>, key: string)
    requires forall i :: 0 <= i < |entries| ==> Sanitize(entries[i].0) == entries[i].0
    ensures Lookup(CleanView(entries), key) == Get(entries, key)
  {
    var keys := ObjectKeys(entries);
    ObjectKeysPresent(entries);
    forall j | 0 <= j < |keys|
      ensures Sanitize(keys[j]) == keys[j]
    {
      GetLast(entries, keys[j]);
    }
    CleanFromOfCleanKeys(entries, keys, key);
  }

  function Lookup(clean: map<string, Json>, key: string): Option<Json> {
    if key in clean then Some(clean[key]) else None
  }

  // ---------------------------------------------------------------- one question

  /** How an error message names a question: `cleanQ.id || index + 1`. */
  datatype QuestionRef = ById(id: Json) | ByPosition(position: nat)

  datatype Failure =
    | MissingFields(ref: QuestionRef, fields: seq<string>)   // `Missing fields: ...`
    | MissingBasicFields(ref: QuestionRef)                    // `Missing basic fields`
    | ExplanationTooShort(ref: QuestionRef)                   // `Explanation missing or too short`
    | NoCorrectAnswer(ref: QuestionRef)                       // `does not have correct answer`
    | UnknownAnswer(ref: QuestionRef, answer: Json)           // `The correct answer ... does not exist`
    | TypeError                                               // a property or method of the wrong kind of value
    | DecodeError                                             // the file is not valid JSON

  const RequiredFields: seq<string> := ["question", "options", "correctAnswers"]

  function RefOf(clean: map<string, Json>, index: nat): QuestionRef {
    if Present(Lookup(clean, "id")) then ById(clean["id"]) else ByPosition(index + 1)
  }

  /** The raw fields that are falsy, in the order the source tests them. */
  function Missing(entries: seq<(string, Json)>): seq<string> {
    (if Present(Get(entries, "question")) then [] else ["question"])
    + (if Present(Get(entries, "options")) then [] else ["options"])
    + (if Present(Get(entries, "correctAnswers")) then [] else ["correctAnswers"])
  }

  /** `v.length === 0` on a truthy value. */
  predicate EmptyLength(v: Json) {
    match v
    case JStr(s) => Utf16Length(s) == 0
    case JArr(items) => items == []
    case JObj(entries) => Get(entries, "length") == Some(JNum(0.0))
    case _ => false
  }

  /** The outcome of `options.find(o => o.letter === ans)`. */
  datatype Search = Found | NotFound | Thrown

  /** `find` over the options: a `null` option before the match throws on `o.letter`. */
  function FindIn(options: seq<Json>, ans: Json): Search {
    if options == [] then NotFound
    else if options[0].JNull? then Thrown
    else if options[0].JObj? && HasLetter(options[0].entries, ans) then Found
    else FindIn(options[1..], ans)
  }

  predicate HasLetter(option: seq<(string, Json)>, ans: Json) {
    Get(option, "letter").Some? && StrictEquals(Get(option, "letter").value, ans)
  }

  /** `cleanQ.options.find(...)`: anything but an array has no `find`. */
  function FindLetter(options: Option<Json>, ans: Json): Search {
    if options.Some? && options.value.JArr? then FindIn(options.value.items, ans) else Thrown
  }

  /** The `forEach` over the correct answers: the first answer with no option stops it. */
  function CheckAnswers(answers: seq<Json>, options: Option<Json>, ref: QuestionRef): Option<Failure> {
    if answers == [] then None
    else
      match FindLetter(options, answers[0])
      case Thrown => Some(TypeError)
      case NotFound => Some(UnknownAnswer(ref, answers[0]))
      case Found => CheckAnswers(answers[1..], options, ref)
  }

  /** The checks after `cleanQ` is built, in the source's order; `None` when the question passes. */
  function CheckRecord(entries: seq<(string, Json)>, clean: map<string, Json>, index: nat): Option<Failure> {
    var ref := RefOf(clean, index);
    var explanation := Lookup(clean, "explanation");
    var answers := Lookup(clean, "correctAnswers");
    if Missing(entries) != [] then Some(MissingFields(ref, Missing(entries)))
    else if !Present(Lookup(clean, "question")) then Some(MissingBasicFields(ref))
    else if !Present(explanation) then Some(ExplanationTooShort(ref))
    else if !explanation.value.JStr? then Some(TypeError)
    else if Utf16Length(Trim(explanation.value.s)) < 5 then Some(ExplanationTooShort(ref))
    else if !Present(answers) || EmptyLength(answers.value) then Some(NoCorrectAnswer(ref))
    else if !answers.value.JArr? then Some(TypeError)
    else CheckAnswers(answers.value.items, Lookup(clean, "options"), ref)
  }

  /**
   * One question at position `index` of the array. `Object.keys(null)`
   * throws; any other non-object has none of the required properties.
   */
  function CheckQuestion(q: Json, index: nat): Option<Failure> {
    match q
    case JNull => Some(TypeError)
    case JObj(entries) => CheckRecord(entries, CleanView(entries), index)
    case _ => Some(MissingFields(ByPosition(index + 1), RequiredFields))
  }

  /** The missing-field list names exactly the falsy required raw fields, in the order question, options, correctAnswers. */
  lemma MissingSpec(entries: seq<(string, Json)>)
    ensures forall f :: f in Missing(entries) <==> f in RequiredFields && !Present(Get(entries, f))
    ensures IsSubseq(Missing(entries), RequiredFields)
  {
    MissingMembers(entries);
    MissingOrder(entries);
  }

  lemma MissingMembers(entries: seq<(string, Json)>)
    ensures forall f :: f in Missing(entries) <==> f in RequiredFields && !Present(Get(entries, f))
  {
    var q := if Present(Get(entries, "question")) then [] else ["question"];
    var o := if Present(Get(entries, "options")) then [] else ["options"];
    var c := if Present(Get(entries, "correctAnswers")) then [] else ["correctAnswers"];
    assert Missing(entries) == q + o + c;
  }

  lemma MissingOrder(entries: seq<(string, Json)>)
    ensures IsSubseq(Missing(entries), RequiredFields)
  {
    var q := if Present(Get(entries, "question")) then [] else ["question"];
    var o := if Present(Get(entries, "options")) then [] else ["options"];
    var c := if Present(Get(entries, "correctAnswers")) then [] else ["correctAnswers"];
    assert Missing(entries) == q + o + c;
    assert RequiredFields == ["question"] + ["options"] + ["correctAnswers"];
    SubseqOfSingleton(q, "question");
    SubseqOfSingleton(o, "options");
    SubseqOfSingleton(c, "correctAnswers");
    SubseqConcat(q, ["question"], o, ["options"]);
    SubseqConcat(q + o, ["question"] + ["options"], c, ["correctAnswers"]);
  }

  /** `find` reaches an option with the answer's letter without passing a `null` option first. */
  predicate Resolves(options: seq<Json>, ans: Json) {
    exists k :: 0 <= k < |options| && options[k].JObj? && HasLetter(options[k].entries, ans)
      && forall j :: 0 <= j < k ==> !options[j].JNull?
  }

  /** When `find` succeeds, the answer resolves to an option. */
  lemma {:induction false} FoundResolves(options: seq<Json>, ans: Json)
    requires FindIn(options, ans) == Found
    ensures Resolves(options, ans)
  {
    if !(options[0].JObj? && HasLetter(options[0].entries, ans)) {
      var rest := options[1..];
      FoundResolves(rest, ans);
      var k :| 0 <= k < |rest| && rest[k].JObj? && HasLetter(rest[k].entries, ans)
        && forall j :: 0 <= j < k ==> !rest[j].JNull?;
      assert options[k + 1] == rest[k];
      forall j | 0 <= j < k + 1
        ensures !options[j].JNull?
      {
        if j > 0 {
          assert options[j] == rest[j - 1];
        }
      }
    }
  }

  /** When the answer resolves to an option, `find` succeeds. */
  lemma {:induction false} ResolvesFound(options: seq<Json>, ans: Json)
    requires Resolves(options, ans)
    ensures FindIn(options, ans) == Found
  {
    var k :| 0 <= k < |options| && options[k].JObj? && HasLetter(options[k].entries, ans)
      && forall j :: 0 <= j < k ==> !options[j].JNull?;
    if k > 0 && !(options[0].JObj? && HasLetter(options[0].entries, ans)) {
      var rest := options[1..];
      assert rest[k - 1] == options[k];
      assert forall j :: 0 <= j < k - 1 ==> rest[j] == options[j + 1];
      ResolvesFound(rest, ans);
    }
  }

  /** `find` succeeds exactly when the answer resolves to an option. */
  lemma FindInSpec(options: seq<Json>, ans: Json)
    ensures FindIn(options, ans) == Found <==> Resolves(options, ans)
  {
    if FindIn(options, ans) == Found {
      FoundResolves(options, ans);
    }
    if Resolves(options, ans) {
      ResolvesFound(options, ans);
    }
  }

  /** The answers pass iff `find` succeeds for each of them. */
  lemma {:induction false} CheckAnswersPass(answers: seq<Json>, options: Option<Json>, ref: QuestionRef)
    ensures CheckAnswers(answers, options, ref).None? <==> forall k :: 0 <= k < |answers| ==> FindLetter(options, answers[k]) == Found
  {
    if answers != [] && FindLetter(options, answers[0]) == Found {
      var rest := answers[1..];
      CheckAnswersPass(rest, options, ref);
      assert forall k :: 0 <= k < |rest| ==> rest[k] == answers[k + 1];
    }
  }

  /** Answer `k` is the first whose search does not succeed. */
  predicate FirstUnfound(answers: seq<Json>, options: Option<Json>, k: int) {
    && 0 <= k < |answers| && FindLetter(options, answers[k]) != Found
    && forall j :: 0 <= j < k ==> FindLetter(options, answers[j]) == Found
  }

  /** What an answer whose search does not succeed reports. */
  function AnswerFailure(options: Option<Json>, ans: Json, ref: QuestionRef): Failure {
    if FindLetter(options, ans) == Thrown then TypeError else UnknownAnswer(ref, ans)
  }

  /** A failure is the first answer without an option, or the search threw on it. */
  lemma {:induction false} CheckAnswersFailure(answers: seq<Json>, options: Option<Json>, ref: QuestionRef)
    requires CheckAnswers(answers, options, ref).Some?
    ensures exists k ::
      && FirstUnfound(answers, options, k)
      && CheckAnswers(answers, options, ref) == Some(AnswerFailure(options, answers[k], ref))
  {
    if FindLetter(options, answers[0]) != Found {
      assert FirstUnfound(answers, options, 0);
    } else {
      var rest := answers[1..];
      CheckAnswersFailure(rest, options, ref);
      var k :| FirstUnfound(rest, options, k)
        && CheckAnswers(rest, options, ref) == Some(AnswerFailure(options, rest[k], ref));
      assert answers[k + 1] == rest[k];
      forall j | 0 <= j < k + 1
        ensures FindLetter(options, answers[j]) == Found
      {
        if j > 0 { assert answers[j] == rest[j - 1]; }
      }
      assert FirstUnfound(answers, options, k + 1);
    }
  }

  /**
   * The answers pass iff `find` succeeds for each; otherwise the first
   * answer without an option is reported, or the search threw.
   */
  lemma CheckAnswersSpec(answers: seq<Json>, options: Option<Json>, ref: QuestionRef)
    ensures CheckAnswers(answers, options, ref).None? <==> forall k :: 0 <= k < |answers| ==> FindLetter(options, answers[k]) == Found
    ensures CheckAnswers(answers, options, ref).Some? ==>
      exists k ::
        && FirstUnfound(answers, options, k)
        && CheckAnswers(answers, options, ref) == Some(AnswerFailure(options, answers[k], ref))
  {
    CheckAnswersPass(answers, options, ref);
    if CheckAnswers(answers, options, ref).Some? {
      CheckAnswersFailure(answers, options, ref);
    }
  }

  /** The conditions under which a question passes, stated without the order of the checks. */
  predicate Accepted(q: Json) {
    && q.JObj?
    && var clean := CleanView(q.entries);
    && var explanation := Lookup(clean, "explanation");
    && var answers := Lookup(clean, "correctAnswers");
    && var options := Lookup(clean, "options");
    && (forall f :: f in RequiredFields ==> Present(Get(q.entries, f)))
    && Present(Lookup(clean, "question"))
    && explanation.Some? && explanation.value.JStr? && Utf16Length(Trim(explanation.value.s)) >= 5
    && answers.Some? && answers.value.JArr? && answers.value.items != []
    && options.Some? && options.value.JArr?
    && forall k :: 0 <= k < |answers.value.items| ==> Resolves(options.value.items, answers.value.items[k])
  }

  /** A question that passes every check is accepted. */
  lemma PassedIsAccepted(q: Json, index: nat)
    requires CheckQuestion(q, index).None?
    ensures Accepted(q)
  {
    var entries := q.entries;
    var clean := CleanView(entries);
    var answers := Lookup(clean, "correctAnswers");
    var options := Lookup(clean, "options");
    MissingSpec(entries);
    var items := answers.value.items;
    assert CheckQuestion(q, index) == CheckAnswers(items, options, RefOf(clean, index));
    CheckAnswersPass(items, options, RefOf(clean, index));
    assert FindLetter(options, items[0]) == Found;
    forall k | 0 <= k < |items|
      ensures Resolves(options.value.items, items[k])
    {
      FindInSpec(options.value.items, items[k]);
    }
  }

  /** An accepted question passes every check. */
  lemma AcceptedPasses(q: Json, index: nat)
    requires Accepted(q)
    ensures CheckQuestion(q, index).None?
  {
    var entries := q.entries;
    var clean := CleanView(entries);
    var answers := Lookup(clean, "correctAnswers");
    var options := Lookup(clean, "options");
    var explanation := Lookup(clean, "explanation");
    assert RequiredFields[0] in RequiredFields && RequiredFields[1] in RequiredFields && RequiredFields[2] in RequiredFields;
    assert Missing(entries) == [];
    assert explanation.value.s != [];
    var items := answers.value.items;
    assert !EmptyLength(answers.value);
    assert CheckQuestion(q, index) == CheckAnswers(items, options, RefOf(clean, index));
    forall k | 0 <= k < |items|
      ensures FindLetter(options, items[k]) == Found
    {
      FindInSpec(options.value.items, items[k]);
    }
    CheckAnswersPass(items, options, RefOf(clean, index));
  }

  /** A question passes exactly when it is accepted. */
  lemma CheckQuestionSpec(q: Json, index: nat)
    ensures CheckQuestion(q, index).None? <==> Accepted(q)
  {
    if CheckQuestion(q, index).None? {
      PassedIsAccepted(q, index);
    }
    if Accepted(q) {
      AcceptedPasses(q, index);
    }
  }

  /**
   * The checks run in a fixed order and the first failure ends them: each
   * failure implies that every earlier check passed.
   */
  lemma FailureOrder(q: Json, index: nat)
    requires q.JObj?
    ensures var clean := CleanView(q.entries);
      var f := CheckQuestion(q, index);
      && (f.Some? && f.value.MissingFields? <==> Missing(q.entries) != [])
      && (f.Some? && f.value.MissingBasicFields? <==> Missing(q.entries) == [] && !Present(Lookup(clean, "question")))
      && (f.Some? && f.value.ExplanationTooShort? ==>
            Missing(q.entries) == [] && Present(Lookup(clean, "question")))
      && (f.Some? && f.value.NoCorrectAnswer? ==>
            && Missing(q.entries) == [] && Present(Lookup(clean, "question"))
            && Lookup(clean, "explanation").Some? && Lookup(clean, "explanation").value.JStr?
            && Utf16Length(Trim(Lookup(clean, "explanation").value.s)) >= 5)
      && (f.Some? && f.value.UnknownAnswer? ==>
            && Missing(q.entries) == [] && Present(Lookup(clean, "question"))
            && Lookup(clean, "explanation").Some? && Lookup(clean, "explanation").value.JStr?
            && Utf16Length(Trim(Lookup(clean, "explanation").value.s)) >= 5
            && Lookup(clean, "correctAnswers").Some? && Lookup(clean, "correctAnswers").value.JArr?
            && !EmptyLength(Lookup(clean, "correctAnswers").value)
            && f.value.answer in Lookup(clean, "correctAnswers").value.items
            && FindLetter(Lookup(clean, "options"), f.value.answer) == NotFound)
  {
    var clean := CleanView(q.entries);
    var answers := Lookup(clean, "correctAnswers");
    if answers.Some? && answers.value.JArr? && CheckAnswers(answers.value.items, Lookup(clean, "options"), RefOf(clean, index)).Some? {
      CheckAnswersFailure(answers.value.items, Lookup(clean, "options"), RefOf(clean, index));
    }
  }

  /** Apart from a thrown search, the answers can only fail with the question's own reference. */
  lemma {:induction false} CheckAnswersRef(answers: seq<Json>, options: Option<Json>, ref: QuestionRef)
    ensures var f := CheckAnswers(answers, options, ref);
      f.Some? ==> f.value.TypeError? || (f.value.UnknownAnswer? && f.value.ref == ref)
  {
    if answers != [] && FindLetter(options, answers[0]) == Found {
      CheckAnswersRef(answers[1..], options, ref);
    }
  }

  /** A question is named by its sanitised `id` when that is truthy, else by its 1-based position. */
  lemma ReferenceRule(q: Json, index: nat)
    requires CheckQuestion(q, index).Some?
    requires var f := CheckQuestion(q, index).value; !f.TypeError? && !f.DecodeError?
    ensures var r := CheckQuestion(q, index).value.ref;
      && (r.ById? <==> q.JObj? && Present(Lookup(CleanView(q.entries), "id")))
      && (r.ById? ==> r.id == CleanView(q.entries)["id"])
      && (r.ByPosition? ==> r.position == index + 1)
  {
    if q.JObj? {
      var clean := CleanView(q.entries);
      var answers := Lookup(clean, "correctAnswers");
      if answers.Some? && answers.value.JArr? {
        CheckAnswersRef(answers.value.items, Lookup(clean, "options"), RefOf(clean, index));
      }
      assert CheckQuestion(q, index).value.ref == RefOf(clean, index);
    }
  }

  // ---------------------------------------------------------------- one document

  /** What checking each question on its own gives, by position. */
  function Outcomes(questions: seq<Json>): seq<Option<Failure>> {
    seq(|questions|, i requires 0 <= i < |questions| => CheckQuestion(questions[i], i))
  }

  /** The first failure in a run of outcomes, or `None` when they all pass. */
  function FirstFailure(outcomes: seq<Option<Failure>>): Option<Failure> {
    if outcomes == [] then None
    else if outcomes[0].Some? then outcomes[0]
    else FirstFailure(outcomes[1..])
  }

  /** `trim` already removes a byte-order mark, so the `replace` and the second `trim` change nothing. */
  lemma PreprocessIsTrim(raw: string)
    ensures Preprocess(raw) == Trim(raw)
  {
    TrimIsTrimmed(raw);
    assert DropByteOrderMark(Trim(raw)) == Trim(raw);
    TrimOfTrimmed(Trim(raw));
  }

  /** A document passes iff every question passes; otherwise it reports the failure of the first question that fails. */
  lemma {:induction false} FirstFailureSpec(outcomes: seq<Option<Failure>>)
    ensures FirstFailure(outcomes).None? <==> forall i :: 0 <= i < |outcomes| ==> outcomes[i].None?
    ensures FirstFailure(outcomes).Some? ==>
      exists i :: 0 <= i < |outcomes| && outcomes[i] == FirstFailure(outcomes)
        && forall j :: 0 <= j < i ==> outcomes[j].None?
  {
    if outcomes != [] && outcomes[0].None? {
      var rest := outcomes[1..];
      FirstFailureSpec(rest);
      assert forall i :: 0 <= i < |rest| ==> rest[i] == outcomes[i + 1];
      if FirstFailure(rest).Some? {
        var i :| 0 <= i < |rest| && rest[i] == FirstFailure(rest) && forall j :: 0 <= j < i ==> rest[j].None?;
        assert outcomes[i + 1] == FirstFailure(outcomes);
      }
    }
  }

  /** The outcome of one file: `data.questions.forEach(...)` throws unless `questions` is an array. */
  function DocumentOutcome(decoded: Option<Json>): Option<Failure> {
    match decoded
    case None => Some(DecodeError)
    case Some(data) =>
      match QuestionsOf(data)
      case Some(questions) => FirstFailure(Outcomes(questions))
      case None => Some(TypeError)
  }

  /** `rawData.trim().replace(/^\uFEFF/, "").trim()` */
  function Preprocess(raw: string): string {
    Trim(DropByteOrderMark(Trim(raw)))
  }

  /** `s.replace(/^\uFEFF/, "")` */
  function DropByteOrderMark(s: string): string {
    if s != [] && s[0] == '\U{FEFF}' then s[1..] else s
  }

  /** A question, as the body of the `forEach` over questions runs it: build `cleanQ`, then check. */
  method ValidateQuestion(q: Json, index: nat) returns (failure: Option<Failure>)
    ensures failure == CheckQuestion(q, index)
  {
    match q {
      case JNull =>
        failure := Some(TypeError);
      case JObj(entries) =>
        var cleanQ := BuildCleanView(entries);
        failure := CheckRecord(entries, cleanQ, index);
      case _ =>
        failure := Some(MissingFields(ByPosition(index + 1), RequiredFields));
    }
  }

  /** The questions of a decoded document, when `data.questions` is an array. */
  function QuestionsOf(data: Json): Option<seq<Json>> {
    var questions := if data.JObj? then Get(data.entries, "questions") else None;
    if questions.Some? && questions.value.JArr? then Some(questions.value.items) else None
  }

  /** `questions.forEach(...)`: the questions in order, stopping at the first that throws. */
  method ValidateQuestions(questions: seq<Json>) returns (failure: Option<Failure>)
    ensures failure == FirstFailure(Outcomes(questions))
  {
    ghost var outcomes := Outcomes(questions);
    failure := None;
    var i := 0;
    while i < |questions| && failure.None?
      invariant 0 <= i <= |questions|
      invariant FirstFailure(outcomes) == if failure.Some? then failure else FirstFailure(outcomes[i..])
    {
      failure := ValidateQuestion(questions[i], i);
      assert outcomes[i..][1..] == outcomes[i + 1..];
      i := i + 1;
    }
  }

  /** The `try` block for one file. */
  method ValidateDocument(decoded: Option<Json>) returns (failure: Option<Failure>)
    ensures failure == DocumentOutcome(decoded)
  {
    if decoded.None? {
      failure := Some(DecodeError);
    } else if QuestionsOf(decoded.value).None? {
      failure := Some(TypeError);
    } else {
      failure := ValidateQuestions(QuestionsOf(decoded.value).value);
    }
  }

  // ---------------------------------------------------------------- the batch

  datatype ExamFile = ExamFile(name: string, content: string)

  const ExcludedFiles: seq<string> := ["explanations.json", "exams.json"]

  /** The directory filter: names ending in "json", other than the two excluded ones. */
  predicate IsExamFile(name: string) {
    EndsWith(name, "json") && name !in ExcludedFiles
  }

  function SelectFiles(dir: seq<ExamFile>): seq<ExamFile> {
    if dir == [] then []
    else SelectFiles(dir[..|dir| - 1]) + (if IsExamFile(dir[|dir| - 1].name) then [dir[|dir| - 1]] else [])
  }

  /** Exactly the exam files of the listing are selected. */
  lemma {:induction false} SelectFilesMembers(dir: seq<ExamFile>)
    ensures forall f :: f in SelectFiles(dir) <==> f in dir && IsExamFile(f.name)
  {
    if dir != [] {
      var init := dir[..|dir| - 1];
      SelectFilesMembers(init);
      assert dir == init + [dir[|dir| - 1]];
    }
  }

  /** The selected files keep the listing's order. */
  lemma {:induction false} SelectFilesOrder(dir: seq<ExamFile>)
    ensures IsSubseq(SelectFiles(dir), dir)
  {
    if dir != [] {
      var init := dir[..|dir| - 1];
      var last := dir[|dir| - 1];
      SelectFilesOrder(init);
      assert init + [last] == dir;
      if IsExamFile(last.name) {
        SubseqAppendBoth(SelectFiles(init), init, last);
      } else {
        assert SelectFiles(dir) == SelectFiles(init) + [];
        assert SelectFiles(init) + [] == SelectFiles(init);
        SubseqAppendRight(SelectFiles(init), init, last);
      }
    }
  }

  /** The file's outcome, with `decode` standing for `JSON.parse` (`None` when it throws). */
  function FileOutcome(f: ExamFile, decode: string -> Option<Json>): Option<Failure> {
    DocumentOutcome(decode(Preprocess(f.content)))
  }

  /** The `Error in <file>` reports, in the order the files are checked. */
  function Reports(files: seq<ExamFile>, decode: string -> Option<Json>): seq<(string, Failure)> {
    if files == [] then []
    else
      var f := files[|files| - 1];
      var outcome := FileOutcome(f, decode);
      Reports(files[..|files| - 1], decode) + (if outcome.Some? then [(f.name, outcome.value)] else [])
  }

  /** The script: every exam file is checked, a failure sets `hasError`, and the exit status is 1 iff it is set. */
  method ValidateFiles(dir: seq<ExamFile>, decode: string -> Option<Json>)
    returns (reports: seq<(string, Failure)>, hasError: bool, exitCode: int)
    ensures reports == Reports(SelectFiles(dir), decode)
    ensures hasError <==> exists i :: 0 <= i < |SelectFiles(dir)| && FileOutcome(SelectFiles(dir)[i], decode).Some?
    ensures exitCode == (if hasError then 1 else 0)
  {
    var files := SelectFiles(dir);
    reports := [];
    hasError := false;
    for i := 0 to |files|
      invariant reports == Reports(files[..i], decode)
      invariant hasError <==> reports != []
    {
      var failure := ValidateDocument(decode(Preprocess(files[i].content)));
      ReportsNext(files, i, decode);
      if failure.Some? {
        reports := reports + [(files[i].name, failure.value)];
        hasError := true;
      }
    }
    assert files[..|files|] == files;
    ReportsNonEmpty(files, decode);
    exitCode := if hasError then 1 else 0;
  }

  lemma ReportsNext(files: seq<ExamFile>, i: nat, decode: string -> Option<Json>)
    requires i < |files|
    ensures var outcome := FileOutcome(files[i], decode);
      Reports(files[..i + 1], decode) == Reports(files[..i], decode) + (if outcome.Some? then [(files[i].name, outcome.value)] else [])
  {
    assert files[..i + 1][..i] == files[..i];
  }

  /** Some file is reported exactly when some selected file fails. */
  lemma {:induction false} ReportsNonEmpty(files: seq<ExamFile>, decode: string -> Option<Json>)
    ensures Reports(files, decode) != [] <==> exists i :: 0 <= i < |files| && FileOutcome(files[i], decode).Some?
  {
    if files != [] {
      var init := files[..|files| - 1];
      var last := |files| - 1;
      ReportsNonEmpty(init, decode);
      if Reports(init, decode) != [] {
        var i :| 0 <= i < |init| && FileOutcome(init[i], decode).Some?;
        assert files[i] == init[i];
      } else if FileOutcome(files[last], decode).None? {
        forall i | 0 <= i < |files|
          ensures FileOutcome(files[i], decode).None?
        {
          if i < last {
            assert files[i] == init[i];
            assert FileOutcome(init[i], decode).None?;
          } else {
            assert i == last;
          }
        }
      }
    }
  }
}
