/**
 * The pure part of the enhanced practice helpers: the question sanitiser
 * that prepares a question for the local store, the answer checker, the
 * College Board explanation builder (its fallback strategy, final relabelling
 * pass and output shape) and the session counters.
 *
 * The three regular-expression strategies that run before the fallback are
 * inputs: `strategyTexts` is what the first successful one wrote, and
 * `fallbackMatches` holds, per letter, the trimmed text the fallback pattern
 * `Choice X is ...` finds in the rationale.
 */
module EnhancedPractice {
  import opened Wrappers
  import opened Text
  import opened JsValues
  import opened PracticeUtils

  // ---------------------------------------------------------------------
  // The question sanitiser
  // ---------------------------------------------------------------------

  /** The record the sanitiser builds; `questionType` is the `type` member. */
  datatype CleanedQuestion = CleanedQuestion(
    externalId: string,
    stem: string,
    stimulus: Option<string>,
    questionType: string,
    domain: string,
    correctAnswer: seq<string>,
    rationale: string,
    image: Option<string>,
    answerOptions: Option<seq<AnswerOption>>)

  /** The number of truthy values in a list. */
  function CountTruthy(items: seq<JsValue>): nat
  {
    if items == [] then 0 else (if Truthy(items[0]) then 1 else 0) + CountTruthy(items[1..])
  }

  /** `items.filter(Boolean).map(String)`: one string per truthy value, each the string of one of them. */
  function TruthyStrings(items: seq<JsValue>): (r: seq<string>)
    ensures |r| == CountTruthy(items)
    ensures forall s :: s in r ==> exists v :: v in items && Truthy(v) && s == ToJsString(v)
  {
    if items == [] then []
    else (if Truthy(items[0]) then [ToJsString(items[0])] else []) + TruthyStrings(items[1..])
  }

  /** Filtering keeps a list of non-empty strings as it is. */
  lemma {:induction false} TruthyStringsCount(items: seq<JsValue>)
    ensures (forall i :: 0 <= i < |items| ==> items[i].JsStr? && items[i].s != []) ==>
      TruthyStrings(items) == seq(|items|, i requires 0 <= i < |items| => items[i].s)
  {
    if items != [] {
      TruthyStringsCount(items[1..]);
    }
  }

  /** The `correct_answer` list: an array keeps its truthy entries, a truthy scalar is wrapped, anything else becomes ["A"]. */
  function CorrectAnswerList(v: JsValue): (r: seq<string>)
    ensures v.JsArr? ==> r == TruthyStrings(v.items)
    ensures !v.JsArr? && Truthy(v) ==> r == [ToJsString(v)]
    ensures !Truthy(v) ==> r == ["A"]
  {
    if v.JsArr? then TruthyStrings(v.items)
    else if Truthy(v) then [ToJsString(v)]
    else ["A"]
  }

  /** One answer option: anything that is not a non-null object is dropped. */
  function CleanOption(v: JsValue): Option<AnswerOption>
  {
    if Truthy(v) && (v.JsObj? || v.JsArr?) then
      Some(AnswerOption(StringOr(Get(v, "id"), ""), StringOr(Get(v, "content"), "")))
    else None
  }

  /** The number of values that make an answer option. */
  function CountOptions(items: seq<JsValue>): nat
  {
    if items == [] then 0 else (if CleanOption(items[0]).Some? then 1 else 0) + CountOptions(items[1..])
  }

  /** `answerOptions.map(...).filter(Boolean)`: one option per value that makes one. */
  function CleanOptions(items: seq<JsValue>): (r: seq<AnswerOption>)
    ensures |r| == CountOptions(items)
  {
    if items == [] then []
    else (match CleanOption(items[0]) case Some(o) => [o] case None => []) + CleanOptions(items[1..])
  }

  /** `v ? String(v) : undefined`. */
  function OptionalString(v: JsValue): (r: Option<string>)
    ensures r.None? <==> !Truthy(v)
  {
    if Truthy(v) then Some(ToJsString(v)) else None
  }

  /** The record built from the JSON copy of the question. */
  function CleanParsed(parsed: JsValue): CleanedQuestion
  {
    var options := Get(parsed, "answerOptions");
    CleanedQuestion(
      StringOr(Get(parsed, "external_id"), ""),
      StringOr(Get(parsed, "stem"), ""),
      OptionalString(Get(parsed, "stimulus")),
      StringOr(Get(parsed, "type"), "mcq"),
      StringOr(Get(parsed, "domain"), ""),
      CorrectAnswerList(Get(parsed, "correct_answer")),
      StringOr(Get(parsed, "rationale"), ""),
      OptionalString(Get(parsed, "image")),
      if options.JsArr? then Some(CleanOptions(options.items)) else None)
  }

  /** `String(v?.[0] || v || "A")`. */
  function FirstAnswer(v: JsValue): string
  {
    if Truthy(Index0(v)) then ToJsString(Index0(v))
    else if Truthy(v) then ToJsString(v)
    else "A"
  }

  /** The minimal record the sanitiser falls back on when serialisation fails. */
  function CleanFallback(question: JsValue): (c: CleanedQuestion)
    ensures |c.correctAnswer| == 1
    ensures c.stimulus.None? && c.image.None? && c.answerOptions.None?
  {
    CleanedQuestion(
      StringOr(Get(question, "external_id"), ""),
      StringOr(Get(question, "stem"), ""),
      None,
      StringOr(Get(question, "type"), "mcq"),
      StringOr(Get(question, "domain"), ""),
      [FirstAnswer(Get(question, "correct_answer"))],
      StringOr(Get(question, "rationale"), ""),
      None,
      None)
  }

  /**
   * `cleanQuestionForStorage`: `None` (null) exactly for a falsy question.
   * A question the JSON round trip drops entirely (a function or a DOM node)
   * makes `JSON.parse` throw, and the minimal fallback record is returned.
   */
  function CleanQuestion(question: JsValue): (r: Option<CleanedQuestion>)
    ensures r.None? <==> !Truthy(question)
    ensures r.Some? && JsonRoundTrip(question).None? ==> r.value == CleanFallback(question)
  {
    if !Truthy(question) then None
    else match JsonRoundTrip(question)
      case Some(parsed) => Some(CleanParsed(parsed))
      case None => Some(CleanFallback(question))
  }

  /**
   * A truthy question JSON carries unchanged is sanitised member by member:
   * the text members default to "" and `type` to "mcq", and `correct_answer`
   * is built by `CorrectAnswerList`.
   */
  lemma CleanQuestionDefaults(question: JsValue)
    requires JsonSafe(question) && Truthy(question)
    ensures CleanQuestion(question).Some?
    ensures var c := CleanQuestion(question).value;
      && c.externalId == StringOr(Get(question, "external_id"), "")
      && c.stem == StringOr(Get(question, "stem"), "")
      && c.questionType == StringOr(Get(question, "type"), "mcq")
      && c.domain == StringOr(Get(question, "domain"), "")
      && c.rationale == StringOr(Get(question, "rationale"), "")
      && c.correctAnswer == CorrectAnswerList(Get(question, "correct_answer"))
  {
    JsonSafeRoundTrip(question);
  }

  /** The stored form of a cleaned question as a JSON value (absent optional members are left out). */
  function Encode(c: CleanedQuestion): JsValue
  {
    var base := map[
      "external_id" := JsStr(c.externalId),
      "stem" := JsStr(c.stem),
      "type" := JsStr(c.questionType),
      "domain" := JsStr(c.domain),
      "correct_answer" := EncodeStrings(c.correctAnswer),
      "rationale" := JsStr(c.rationale)];
    var withStimulus := if c.stimulus.Some? then base["stimulus" := JsStr(c.stimulus.value)] else base;
    var withImage := if c.image.Some? then withStimulus["image" := JsStr(c.image.value)] else withStimulus;
    JsObj(if c.answerOptions.Some? then withImage["answerOptions" := EncodeOptions(c.answerOptions.value)] else withImage)
  }

  /** A list of strings as a JSON array. */
  function EncodeStrings(xs: seq<string>): JsValue
  {
    JsArr(seq(|xs|, i requires 0 <= i < |xs| => JsStr(xs[i])))
  }

  function EncodeOption(o: AnswerOption): JsValue
  {
    JsObj(map["id" := JsStr(o.id), "content" := JsStr(o.content)])
  }

  function EncodeOptions(options: seq<AnswerOption>): JsValue
  {
    JsArr(seq(|options|, i requires 0 <= i < |options| => EncodeOption(options[i])))
  }

  /**
   * A record the sanitiser reproduces: a non-empty type, non-empty answers,
   * and no empty stimulus or image (empty strings are falsy and would be dropped).
   */
  predicate WellFormed(c: CleanedQuestion)
  {
    && c.questionType != []
    && (forall i :: 0 <= i < |c.correctAnswer| ==> c.correctAnswer[i] != [])
    && c.stimulus != Some([])
    && c.image != Some([])
  }

  lemma {:induction false} CleanEncodedOptions(options: seq<AnswerOption>)
    ensures CleanOptions(EncodeOptions(options).items) == options
  {
    if options != [] {
      var items := EncodeOptions(options).items;
      assert items[1..] == EncodeOptions(options[1..]).items;
      CleanEncodedOption(options[0]);
      CleanEncodedOptions(options[1..]);
      assert options == [options[0]] + options[1..];
    }
  }

  lemma CleanEncodedOption(o: AnswerOption)
    ensures CleanOption(EncodeOption(o)) == Some(o)
  {
    var v := EncodeOption(o);
    assert Get(v, "id") == JsStr(o.id) && Get(v, "content") == JsStr(o.content);
  }

  lemma EncodeIsJsonSafe(c: CleanedQuestion)
    ensures JsonSafe(Encode(c))
  {
    var v := Encode(c);
    assert !IsDomNode(v);
    if c.answerOptions.Some? {
      var items := EncodeOptions(c.answerOptions.value).items;
      forall i | 0 <= i < |items| ensures JsonSafe(items[i]) {
        assert !IsDomNode(items[i]);
      }
    }
  }

  /** The members of a stored question, as the sanitiser reads them. */
  lemma EncodeMembers(c: CleanedQuestion)
    ensures Get(Encode(c), "external_id") == JsStr(c.externalId)
    ensures Get(Encode(c), "stem") == JsStr(c.stem)
    ensures Get(Encode(c), "type") == JsStr(c.questionType)
    ensures Get(Encode(c), "domain") == JsStr(c.domain)
    ensures Get(Encode(c), "rationale") == JsStr(c.rationale)
    ensures Get(Encode(c), "correct_answer") == EncodeStrings(c.correctAnswer)
    ensures Get(Encode(c), "stimulus") == if c.stimulus.Some? then JsStr(c.stimulus.value) else JsUndefined
    ensures Get(Encode(c), "image") == if c.image.Some? then JsStr(c.image.value) else JsUndefined
    ensures Get(Encode(c), "answerOptions") ==
      if c.answerOptions.Some? then EncodeOptions(c.answerOptions.value) else JsUndefined
  {
    EncodeTextMembers(c);
    EncodeListMembers(c);
    EncodeOptionalMembers(c);
  }

  lemma EncodeTextMembers(c: CleanedQuestion)
    ensures Get(Encode(c), "external_id") == JsStr(c.externalId)
    ensures Get(Encode(c), "stem") == JsStr(c.stem)
    ensures Get(Encode(c), "type") == JsStr(c.questionType)
  {
  }

  lemma EncodeListMembers(c: CleanedQuestion)
    ensures Get(Encode(c), "domain") == JsStr(c.domain)
    ensures Get(Encode(c), "rationale") == JsStr(c.rationale)
    ensures Get(Encode(c), "correct_answer") == EncodeStrings(c.correctAnswer)
  {
  }

  lemma EncodeOptionalMembers(c: CleanedQuestion)
    ensures Get(Encode(c), "stimulus") == if c.stimulus.Some? then JsStr(c.stimulus.value) else JsUndefined
    ensures Get(Encode(c), "image") == if c.image.Some? then JsStr(c.image.value) else JsUndefined
    ensures Get(Encode(c), "answerOptions") ==
      if c.answerOptions.Some? then EncodeOptions(c.answerOptions.value) else JsUndefined
  {
  }

  /** Sanitising a stored question again gives back the same record: the sanitiser is idempotent on its results. */
  lemma CleanEncode(c: CleanedQuestion)
    requires WellFormed(c)
    ensures CleanQuestion(Encode(c)) == Some(c)
  {
    var v := Encode(c);
    EncodeIsJsonSafe(c);
    JsonSafeRoundTrip(v);
    EncodeMembers(c);
    CleanParsedMembers(v, c);
  }

  /** A value whose members are those of a well-formed record's encoding is sanitised back to that record. */
  lemma CleanParsedMembers(v: JsValue, c: CleanedQuestion)
    requires WellFormed(c)
    requires Get(v, "external_id") == JsStr(c.externalId)
    requires Get(v, "stem") == JsStr(c.stem)
    requires Get(v, "type") == JsStr(c.questionType)
    requires Get(v, "domain") == JsStr(c.domain)
    requires Get(v, "rationale") == JsStr(c.rationale)
    requires Get(v, "correct_answer") == EncodeStrings(c.correctAnswer)
    requires Get(v, "stimulus") == if c.stimulus.Some? then JsStr(c.stimulus.value) else JsUndefined
    requires Get(v, "image") == if c.image.Some? then JsStr(c.image.value) else JsUndefined
    requires Get(v, "answerOptions") == if c.answerOptions.Some? then EncodeOptions(c.answerOptions.value) else JsUndefined
    ensures CleanParsed(v) == c
  {
    var answers := Get(v, "correct_answer").items;
    TruthyStringsCount(answers);
    assert CorrectAnswerList(Get(v, "correct_answer")) == c.correctAnswer;
    if c.answerOptions.Some? {
      CleanEncodedOptions(c.answerOptions.value);
    }
    assert OptionalString(Get(v, "stimulus")) == c.stimulus;
    assert OptionalString(Get(v, "image")) == c.image;
    assert StringOr(Get(v, "type"), "mcq") == c.questionType;
  }

  // ---------------------------------------------------------------------
  // The answer checker
  // ---------------------------------------------------------------------

  /** What a call returns, or that it throws a `TypeError`. */
  datatype Verdict = Judged(correct: bool) | Threw

  /**
   * `options?.[index]?.id`; the index is `None` when it is `NaN` (the letter
   * was an empty string), which reads the member named "NaN".
   */
  function OptionIdAt(options: JsValue, index: Option<int>): JsValue
  {
    var option :=
      match options
      case JsArr(items) => if index.Some? && 0 <= index.value < |items| then items[index.value] else JsUndefined
      case JsObj(_) => Get(options, if index.Some? then IntToString(index.value) else "NaN")
      case _ => JsUndefined;
    if option.JsUndefined? || option.JsNull? then JsUndefined else Get(option, "id")
  }

  /**
   * The multiple-choice rule: the letter `correct_answer[0]` names the option
   * at index (its code - 65), and the answer is right when it is that option's id.
   * A missing list or a letter that is not a string throws.
   */
  function CheckMcq(question: JsValue, selected: string): Verdict
  {
    var answers := Get(question, "correct_answer");
    if answers.JsUndefined? || answers.JsNull? then Threw
    else
      var letter := Index0(answers);
      if !letter.JsStr? then Threw
      else
        var index := if letter.s == [] then None else Some(FirstCodeUnit(letter.s) - 65);
        Judged(OptionIdAt(Get(question, "answerOptions"), index) == JsStr(selected))
  }

  /**
   * `answers.some(...)` for a student-produced response: an answer matches
   * when its trimmed lower-case text equals the user's, or when the two parse
   * to the same number (`numericallyEqual`). A non-string reached before any
   * match throws.
   */
  function SprAny(answers: seq<JsValue>, user: string, numericallyEqual: (string, string) -> bool): Verdict
  {
    if answers == [] then Judged(false)
    else if !answers[0].JsStr? then Threw
    else
      var correct := ToLowerAscii(Trim(answers[0].s));
      if user == correct || numericallyEqual(user, correct) then Judged(true)
      else SprAny(answers[1..], user, numericallyEqual)
  }

  /** `checkAnswer`: false for a missing question, an empty answer or a type other than "mcq" and "spr". */
  function CheckAnswer(question: JsValue, selected: string, numericallyEqual: (string, string) -> bool): (v: Verdict)
    ensures !Truthy(question) || selected == [] ==> v == Judged(false)
    ensures Get(question, "type") != JsStr("mcq") && Get(question, "type") != JsStr("spr") ==> v == Judged(false)
  {
    if !Truthy(question) || selected == [] then Judged(false)
    else if Get(question, "type") == JsStr("mcq") then CheckMcq(question, selected)
    else if Get(question, "type") == JsStr("spr") then
      var answers := Get(question, "correct_answer");
      if answers.JsArr? then SprAny(answers.items, ToLowerAscii(Trim(selected)), numericallyEqual) else Threw
    else Judged(false)
  }

  /** The index the multiple-choice rule reads for a cleaned question's first answer. */
  function AnswerIndex(c: CleanedQuestion): int
    requires c.correctAnswer != [] && c.correctAnswer[0] != []
  {
    FirstCodeUnit(c.correctAnswer[0]) - 65
  }

  /** For a stored multiple-choice question, the answer is right exactly when it is the id of the option its letter names. */
  lemma CheckMcqStored(c: CleanedQuestion, selected: string, numericallyEqual: (string, string) -> bool)
    requires c.questionType == "mcq" && selected != []
    requires c.correctAnswer != [] && c.correctAnswer[0] != [] && c.answerOptions.Some?
    ensures CheckAnswer(Encode(c), selected, numericallyEqual) ==
      var k := AnswerIndex(c);
      Judged(0 <= k < |c.answerOptions.value| && c.answerOptions.value[k].id == selected)
  {
    EncodeMembers(c);
    CheckMcqArrays(Encode(c), c.correctAnswer, c.answerOptions.value, selected, numericallyEqual);
  }

  /** A multiple-choice question whose answers and options are arrays is judged by the option its first letter names. */
  lemma CheckMcqArrays(question: JsValue, answers: seq<string>, options: seq<AnswerOption>, selected: string,
                       numericallyEqual: (string, string) -> bool)
    requires question.JsObj? && selected != [] && answers != [] && answers[0] != []
    requires Get(question, "type") == JsStr("mcq")
    requires Get(question, "correct_answer") == EncodeStrings(answers)
    requires Get(question, "answerOptions") == EncodeOptions(options)
    ensures CheckAnswer(question, selected, numericallyEqual) ==
      var k := FirstCodeUnit(answers[0]) - 65;
      Judged(0 <= k < |options| && options[k].id == selected)
  {
    var k := FirstCodeUnit(answers[0]) - 65;
    assert Index0(Get(question, "correct_answer")) == JsStr(answers[0]);
    if 0 <= k < |options| {
      assert EncodeOptions(options).items[k] == EncodeOption(options[k]);
    }
  }

  /** A stored multiple-choice question whose answer list is empty makes the checker throw. */
  lemma CheckMcqNoAnswers(c: CleanedQuestion, selected: string, numericallyEqual: (string, string) -> bool)
    requires c.questionType == "mcq" && selected != [] && c.correctAnswer == []
    ensures CheckAnswer(Encode(c), selected, numericallyEqual) == Threw
  {
    EncodeMembers(c);
  }

  /**
   * With distinct option ids, the checker accepts exactly the answer whose
   * choice letter (as the explanation builders compute it) is the correct letter.
   */
  lemma CheckMcqAgreesWithSelection(c: CleanedQuestion, selected: string, numericallyEqual: (string, string) -> bool)
    requires c.questionType == "mcq" && selected != []
    requires c.correctAnswer != [] && c.correctAnswer[0] != [] && c.answerOptions.Some?
    requires |c.answerOptions.value| + 65 <= 0x1_0000
    requires forall i, j :: 0 <= i < j < |c.answerOptions.value| ==> c.answerOptions.value[i].id != c.answerOptions.value[j].id
    ensures CheckAnswer(Encode(c), selected, numericallyEqual) == Judged(true) <==>
      SelectedChoiceLetter(selected, c.answerOptions) == Some(FirstCodeUnit(c.correctAnswer[0]))
  {
    CheckMcqStored(c, selected, numericallyEqual);
    SelectionNamesOption(c.answerOptions.value, selected, FirstCodeUnit(c.correctAnswer[0]));
  }

  /** With distinct ids, the letter code computed for a selection names exactly the option carrying it. */
  lemma SelectionNamesOption(options: seq<AnswerOption>, selected: string, code: nat)
    requires selected != [] && |options| + 65 <= 0x1_0000
    requires forall i, j :: 0 <= i < j < |options| ==> options[i].id != options[j].id
    ensures (0 <= code - 65 < |options| && options[code - 65].id == selected) <==>
      SelectedChoiceLetter(selected, Some(options)) == Some(code)
  {
    var r := SelectedChoiceLetter(selected, Some(options));
    var k := code - 65;
    if r.Some? {
      SelectedChoiceLetterFirst(selected, Some(options));
      var i :| 0 <= i < |options| && options[i].id == selected &&
        (forall j :: 0 <= j < i ==> options[j].id != selected) && r.value == (65 + i) % 0x1_0000;
      assert r.value == 65 + i;
      if 0 <= k < |options| && options[k].id == selected {
        assert k == i;
      }
    }
  }

  /** Over a list of strings the response check never throws and accepts exactly when some answer matches. */
  lemma {:induction false} SprAnyStrings(answers: seq<JsValue>, user: string, numericallyEqual: (string, string) -> bool)
    requires forall i :: 0 <= i < |answers| ==> answers[i].JsStr?
    ensures SprAny(answers, user, numericallyEqual) ==
      Judged(exists i :: 0 <= i < |answers| && SprMatch(answers[i].s, user, numericallyEqual))
  {
    if answers != [] {
      SprAnyStrings(answers[1..], user, numericallyEqual);
      if !SprMatch(answers[0].s, user, numericallyEqual) {
        forall i | 0 <= i < |answers| && SprMatch(answers[i].s, user, numericallyEqual)
          ensures 0 <= i - 1 < |answers| - 1 && SprMatch(answers[1..][i - 1].s, user, numericallyEqual)
        {
        }
      }
    }
  }

  /** One accepted answer of a student-produced response question. */
  predicate SprMatch(answer: string, user: string, numericallyEqual: (string, string) -> bool)
  {
    var correct := ToLowerAscii(Trim(answer));
    user == correct || numericallyEqual(user, correct)
  }

  /** A stored response question is accepted exactly when the trimmed lower-case answer matches one of its answers. */
  lemma CheckSprStored(c: CleanedQuestion, selected: string, numericallyEqual: (string, string) -> bool)
    requires c.questionType == "spr" && selected != []
    ensures CheckAnswer(Encode(c), selected, numericallyEqual) ==
      Judged(exists i :: 0 <= i < |c.correctAnswer| && SprMatch(c.correctAnswer[i], ToLowerAscii(Trim(selected)), numericallyEqual))
  {
    EncodeMembers(c);
    var items := EncodeStrings(c.correctAnswer).items;
    CheckSprArray(Encode(c), items, selected, numericallyEqual);
    StringItemsMatch(c.correctAnswer, items, ToLowerAscii(Trim(selected)), numericallyEqual);
  }

  /** A truthy "spr" question whose answers are an array is judged by `SprAny` over that array. */
  lemma CheckSprArray(question: JsValue, items: seq<JsValue>, selected: string, numericallyEqual: (string, string) -> bool)
    requires question.JsObj? && selected != []
    requires Get(question, "type") == JsStr("spr") && Get(question, "correct_answer") == JsArr(items)
    ensures CheckAnswer(question, selected, numericallyEqual) == SprAny(items, ToLowerAscii(Trim(selected)), numericallyEqual)
  {
    assert Get(question, "type") != JsStr("mcq");
  }

  /** Over the string encodings of some answers, `SprAny` finds a match exactly when one of the answers matches. */
  lemma StringItemsMatch(answers: seq<string>, items: seq<JsValue>, user: string, numericallyEqual: (string, string) -> bool)
    requires |items| == |answers| && forall i :: 0 <= i < |items| ==> items[i] == JsStr(answers[i])
    ensures SprAny(items, user, numericallyEqual) ==
      Judged(exists i :: 0 <= i < |answers| && SprMatch(answers[i], user, numericallyEqual))
  {
    SprAnyStrings(items, user, numericallyEqual);
    assert forall i :: 0 <= i < |items| ==> items[i].s == answers[i];
  }

  // ---------------------------------------------------------------------
  // "is correct" in the text of a wrong choice
  // ---------------------------------------------------------------------

  const CorrectPhrase: string := "is correct"
  const IncorrectPhrase: string := "is incorrect"

  /** What the final pass inserts after "Choice X" when a wrong choice's text does not say it is wrong. */
  const Clarification: string := " is incorrect."

  /** `/is correct/i.test(text)`. */
  predicate SaysCorrect(text: string)
  {
    ContainsIgnoreCase(text, CorrectPhrase)
  }

  /** No index at all starts a case-insensitive "is correct". */
  ghost predicate NoPhrase(text: string)
  {
    forall j :: 0 <= j ==> !MatchAtIgnoreCase(text, j, CorrectPhrase)
  }

  lemma NoPhraseMeansSilent(text: string)
    ensures NoPhrase(text) <==> !SaysCorrect(text)
  {
  }

  /** `text.replace(/is correct/gi, "is incorrect")`. */
  function Negate(text: string): string
  {
    ReplaceAllIgnoreCase(text, CorrectPhrase, IncorrectPhrase)
  }

  lemma PhraseCharacters(d: int)
    requires 0 <= d < 10
    ensures LowerAscii(CorrectPhrase[d]) == CorrectPhrase[d]
    ensures CorrectPhrase[d] == 'i' <==> d == 0
    ensures CorrectPhrase[d] == ' ' <==> d == 2
  {
  }

  lemma IncorrectCharacters(k: int)
    requires 0 <= k < 12
    ensures LowerAscii(IncorrectPhrase[k]) == IncorrectPhrase[k]
    ensures IncorrectPhrase[k] == 'i' <==> k == 0 || k == 3
  {
  }

  lemma ClarificationCharacters(k: int)
    requires 0 <= k < 14
    ensures LowerAscii(Clarification[k]) == Clarification[k]
    ensures Clarification[k] == 'i' <==> k == 1 || k == 4
  {
  }

  /** A match depends only on the ten characters it covers. */
  lemma MatchSameText(s: string, j: int, t: string, k: int)
    requires 0 <= j && j + 10 <= |s| && 0 <= k && k + 10 <= |t|
    requires s[j..j + 10] == t[k..k + 10]
    ensures MatchAtIgnoreCase(s, j, CorrectPhrase) == MatchAtIgnoreCase(t, k, CorrectPhrase)
  {
    var u := s[j..j + 10];
    assert forall d :: 0 <= d < 10 ==> u[d] == s[j + d] && u[d] == t[k + d];
  }

  /** A replaced phrase starts with "incorrect", which begins no tail of "is correct". */
  lemma ReplacedPhraseNoTail(t: string, m: nat)
    requires m < 10 && |t| >= 10 && MatchAtIgnoreCase(t, 0, CorrectPhrase)
    ensures !MatchAtIgnoreCase(Negate(t), 0, CorrectPhrase[m..])
  {
    var q := CorrectPhrase[m..];
    var r := Negate(t);
    assert r == IncorrectPhrase + Negate(t[10..]);
    PhraseCharacters(m);
    if m == 0 {
      assert LowerAscii(r[3]) != LowerAscii(q[3]);
    } else {
      assert LowerAscii(r[0]) != LowerAscii(q[0]);
    }
  }

  /** When the negated text starts with a tail of the phrase, so did the original text. */
  lemma {:induction false} NegatePrefix(t: string, m: nat)
    requires m < 10
    ensures MatchAtIgnoreCase(Negate(t), 0, CorrectPhrase[m..]) ==> MatchAtIgnoreCase(t, 0, CorrectPhrase[m..])
    decreases |t|
  {
    var q := CorrectPhrase[m..];
    var r := Negate(t);
    if |t| < 10 {
    } else if MatchAtIgnoreCase(t, 0, CorrectPhrase) {
      ReplacedPhraseNoTail(t, m);
    } else {
      var rest := Negate(t[1..]);
      assert r == [t[0]] + rest;
      assert t == [t[0]] + t[1..];
      MatchAtCons(t[0], rest, q);
      MatchAtCons(t[0], t[1..], q);
      if m < 9 {
        assert q[1..] == CorrectPhrase[m + 1..];
        NegatePrefix(t[1..], m + 1);
      }
    }
  }

  /** After `replace(/is correct/gi, "is incorrect")` the text no longer says "is correct" anywhere. */
  lemma {:induction false} NegateSilences(t: string)
    ensures NoPhrase(Negate(t))
    decreases |t|
  {
    if |t| < 10 {
    } else if MatchAtIgnoreCase(t, 0, CorrectPhrase) {
      NegateSilences(t[10..]);
      NegateSilencesReplaced(t);
    } else {
      NegateSilences(t[1..]);
      NegateSilencesKept(t);
    }
  }

  /** A leading match becomes "is incorrect", which starts no match, and the rest is silent already. */
  lemma NegateSilencesReplaced(t: string)
    requires |t| >= 10 && MatchAtIgnoreCase(t, 0, CorrectPhrase)
    requires NoPhrase(Negate(t[10..]))
    ensures NoPhrase(Negate(t))
  {
    var r := Negate(t);
    var rest := Negate(t[10..]);
    assert r == IncorrectPhrase + rest;
    forall j | 0 <= j ensures !MatchAtIgnoreCase(r, j, CorrectPhrase) {
      if j + 10 <= |r| {
        if j >= 12 {
          assert r[j..j + 10] == rest[j - 12..j - 2];
          MatchSameText(r, j, rest, j - 12);
        } else {
          IncorrectCharacters(j);
          if j == 0 {
            assert LowerAscii(r[3]) != LowerAscii(CorrectPhrase[3]);
          } else if j == 3 {
            assert LowerAscii(r[4]) != LowerAscii(CorrectPhrase[1]);
          } else {
            assert LowerAscii(r[j]) != LowerAscii(CorrectPhrase[0]);
          }
        }
      }
    }
  }

  /** A leading character that starts no match is kept, and no match can start on it afterwards. */
  lemma NegateSilencesKept(t: string)
    requires |t| >= 10 && !MatchAtIgnoreCase(t, 0, CorrectPhrase)
    requires NoPhrase(Negate(t[1..]))
    ensures NoPhrase(Negate(t))
  {
    var r := Negate(t);
    var rest := Negate(t[1..]);
    NegatePrefix(t, 0);
    assert CorrectPhrase[0..] == CorrectPhrase;
    assert r == [t[0]] + rest;
    forall j | 1 <= j ensures !MatchAtIgnoreCase(r, j, CorrectPhrase) {
      if j + 10 <= |r| {
        assert r[j..j + 10] == rest[j - 1..j + 9];
        MatchSameText(r, j, rest, j - 1);
      }
    }
  }

  /** Inserting " is incorrect." anywhere into a text that does not say "is correct" keeps it so. */
  lemma InsertClarification(a: string, b: string)
    requires NoPhrase(a + b)
    ensures NoPhrase(a + Clarification + b)
  {
    var s := a + b;
    var r := a + Clarification + b;
    var p := |a|;
    forall j | 0 <= j ensures !MatchAtIgnoreCase(r, j, CorrectPhrase) {
      if j + 10 <= |r| {
        if j + 10 <= p {
          assert r[j..j + 10] == s[j..j + 10];
          MatchSameText(r, j, s, j);
        } else if j < p {
          var e := p - j;
          assert r[p] == ' ';
          PhraseCharacters(e);
          if e == 2 {
            assert r[j + 3] == 'i';
            assert LowerAscii(r[j + 3]) != LowerAscii(CorrectPhrase[3]);
          } else {
            assert LowerAscii(r[j + e]) != LowerAscii(CorrectPhrase[e]);
          }
        } else if j < p + 14 {
          var k := j - p;
          assert r[j] == Clarification[k];
          ClarificationCharacters(k);
          if k == 1 {
            assert r[j + 3] == Clarification[4];
            assert LowerAscii(r[j + 3]) != LowerAscii(CorrectPhrase[3]);
          } else if k == 4 {
            assert r[j + 1] == Clarification[5];
            assert LowerAscii(r[j + 1]) != LowerAscii(CorrectPhrase[1]);
          } else {
            assert LowerAscii(r[j]) != LowerAscii(CorrectPhrase[0]);
          }
        } else {
          assert r[j..j + 10] == s[j - 14..j - 4];
          MatchSameText(r, j, s, j - 14);
        }
      }
    }
  }

  // ---------------------------------------------------------------------
  // The College Board explanation: fallback, final pass and result
  // ---------------------------------------------------------------------

  const ChoiceLetters: seq<string> := ["A", "B", "C", "D"]

  /** The per-letter texts before any strategy runs. */
  const EmptyTexts: map<string, string> := map["A" := "", "B" := "", "C" := "", "D" := ""]

  /** `explanations[key]`, with a missing member read as "". */
  function Lookup(texts: map<string, string>, key: string): string
  {
    if key in texts then texts[key] else ""
  }

  /** The fallback text of the correct letter: its matched passage, or a default. */
  function CorrectFallback(correctAnswer: string, matches: map<string, string>): string
  {
    if correctAnswer in matches then "<p>" + matches[correctAnswer] + "</p>"
    else "<p>Choice " + correctAnswer + " is the correct answer.</p>"
  }

  /** The fallback text of another letter: its matched passage with "is correct" negated, or a default. */
  function OtherFallback(letter: string, matches: map<string, string>): string
  {
    if letter in matches then "<p>" + Negate(matches[letter]) + "</p>"
    else "<p>Choice " + letter + " is incorrect.</p>"
  }

  /** Strategy 4 after its first `k` letters: only letters other than the correct one whose text is still empty are filled. */
  function FallbackUpTo(correctAnswer: string, matches: map<string, string>, k: nat): map<string, string>
    requires k <= 4
  {
    if k == 0 then EmptyTexts[correctAnswer := CorrectFallback(correctAnswer, matches)]
    else
      var texts := FallbackUpTo(correctAnswer, matches, k - 1);
      var letter := ChoiceLetters[k - 1];
      if letter != correctAnswer && Lookup(texts, letter) == [] then texts[letter := OtherFallback(letter, matches)]
      else texts
  }

  /**
   * The final pass on one letter: the non-empty text of a wrong choice is
   * negated and, when it then says neither "incorrect" nor "not ", gets
   * " is incorrect." inserted after its first "Choice X"; an empty text gets a default.
   */
  function FinalPassEntry(letter: string, correctAnswer: string, text: string): string
  {
    var relabelled :=
      if letter != correctAnswer && text != [] then
        var negated := Negate(text);
        if !ContainsIgnoreCase(negated, "incorrect") && !ContainsIgnoreCase(negated, "not ") then
          ReplaceFirst(negated, "Choice " + letter, "Choice " + letter + Clarification)
        else negated
      else text;
    if relabelled != [] then relabelled
    else if letter == correctAnswer then "<p>Choice " + letter + " is the correct answer.</p>"
    else "<p>Choice " + letter + " is incorrect.</p>"
  }

  /** The final pass after its first `k` letters. */
  function FinalPassUpTo(texts: map<string, string>, correctAnswer: string, k: nat): map<string, string>
    requires k <= 4
  {
    if k == 0 then texts
    else
      var done := FinalPassUpTo(texts, correctAnswer, k - 1);
      var letter := ChoiceLetters[k - 1];
      done[letter := FinalPassEntry(letter, correctAnswer, Lookup(done, letter))]
  }

  /** The per-letter texts once the strategies, the fallback and the final pass have run. */
  function ExplainedTexts(correctAnswer: string, strategyTexts: Option<map<string, string>>,
                          fallbackMatches: map<string, string>): map<string, string>
  {
    var parsed := if strategyTexts.Some? then EmptyTexts + strategyTexts.value else FallbackUpTo(correctAnswer, fallbackMatches, 4);
    FinalPassUpTo(parsed, correctAnswer, 4)
  }

  /** The per-letter texts keyed by the letter character, as the result builder reads them. */
  function ByLetter(texts: map<string, string>): (r: map<char, string>)
    ensures forall i :: 0 <= i < 4 ==> Entry(r, Letters[i]) == Lookup(texts, ChoiceLetters[i])
  {
    map c | c in Letters && [c] in texts :: texts[[c]]
  }

  /** The final pass leaves every letter a non-empty text, and no wrong letter's text says "is correct". */
  lemma FinalPassEntryFacts(letter: string, correctAnswer: string, text: string)
    requires letter in ChoiceLetters
    ensures FinalPassEntry(letter, correctAnswer, text) != []
    ensures letter != correctAnswer ==> !SaysCorrect(FinalPassEntry(letter, correctAnswer, text))
    ensures letter == correctAnswer && text != [] ==> FinalPassEntry(letter, correctAnswer, text) == text
  {
    if letter != correctAnswer {
      var result := FinalPassEntry(letter, correctAnswer, text);
      if text != [] {
        var negated := Negate(text);
        NegateSilences(text);
        if !ContainsIgnoreCase(negated, "incorrect") && !ContainsIgnoreCase(negated, "not ") {
          ClarifiedStaysSilent(negated, letter);
        }
      }
      if result != [] && result == "<p>Choice " + letter + " is incorrect.</p>" {
        DefaultStaysSilent(letter);
      }
      NoPhraseMeansSilent(result);
    }
  }

  /** Inserting the clarification after the first "Choice X" keeps a silent text silent. */
  lemma ClarifiedStaysSilent(text: string, letter: string)
    requires NoPhrase(text)
    ensures NoPhrase(ReplaceFirst(text, "Choice " + letter, "Choice " + letter + Clarification))
  {
    var pat := "Choice " + letter;
    match IndexOf(text, pat)
    case None =>
    case Some(i) =>
      var cut := i + |pat|;
      assert text[i..cut] == pat;
      assert text[..i] + (pat + Clarification) + text[cut..] == text[..cut] + Clarification + text[cut..];
      assert text[..cut] + text[cut..] == text;
      InsertClarification(text[..cut], text[cut..]);
  }

  /** The default text of a wrong letter does not say "is correct". */
  lemma DefaultStaysSilent(letter: string)
    requires letter in ChoiceLetters
    ensures NoPhrase("<p>Choice " + letter + " is incorrect.</p>")
  {
    var a := "<p>Choice " + letter;
    var b := "</p>";
    forall j | 0 <= j ensures !MatchAtIgnoreCase(a + b, j, CorrectPhrase) {
      if j + 10 <= |a + b| {
        assert LowerAscii((a + b)[j]) != LowerAscii(CorrectPhrase[0]);
      }
    }
    assert "<p>Choice " + letter + " is incorrect.</p>" == a + Clarification + b;
    InsertClarification(a, b);
  }

  /** After the final pass each letter holds the final-pass form of its earlier text. */
  lemma {:induction false} FinalPassLetter(texts: map<string, string>, correctAnswer: string, k: nat, i: nat)
    requires k <= 4 && i < 4
    ensures Lookup(FinalPassUpTo(texts, correctAnswer, k), ChoiceLetters[i]) ==
      if i < k then FinalPassEntry(ChoiceLetters[i], correctAnswer, Lookup(texts, ChoiceLetters[i]))
      else Lookup(texts, ChoiceLetters[i])
  {
    if k > 0 {
      FinalPassLetter(texts, correctAnswer, k - 1, i);
      ChoiceLettersDistinct(i, k - 1);
      var done := FinalPassUpTo(texts, correctAnswer, k - 1);
      var letter := ChoiceLetters[k - 1];
      assert FinalPassUpTo(texts, correctAnswer, k) == done[letter := FinalPassEntry(letter, correctAnswer, Lookup(done, letter))];
    }
  }

  lemma ChoiceLettersDistinct(i: nat, j: nat)
    requires i < 4 && j < 4
    ensures ChoiceLetters[i] == ChoiceLetters[j] <==> i == j
  {
    ChoiceLetterChar(i);
    ChoiceLetterChar(j);
    assert ChoiceLetters[i][0] == Letters[i] && ChoiceLetters[j][0] == Letters[j];
  }

  /**
   * `parseCollegeBoardExplanation` once the rationale and options are present:
   * four entries A-D in order, each with non-empty content; an entry is
   * correct exactly when its letter is the correct answer, selected exactly
   * when the selected answer is the id of the option at its position (and of no
   * earlier option); no wrong choice's content says "is correct"; and the
   * correct choice keeps any non-empty text the strategies gave it.
   */
  lemma CollegeBoardResultShape(correctAnswer: string, selectedAnswer: string, options: seq<AnswerOption>,
                                strategyTexts: Option<map<string, string>>, fallbackMatches: map<string, string>)
    requires selectedAnswer != [] && |options| <= 0x1_0000
    ensures var r := BuildResult(ByLetter(ExplainedTexts(correctAnswer, strategyTexts, fallbackMatches)),
                                 correctAnswer, selectedAnswer, Some(options));
      && |r| == 4
      && forall i :: 0 <= i < 4 ==>
        && r[i].letter == Letters[i]
        && (r[i].isCorrect <==> correctAnswer == ChoiceLetters[i])
        && (r[i].isSelected <==> i < |options| && options[i].id == selectedAnswer &&
                                  forall j :: 0 <= j < i ==> options[j].id != selectedAnswer)
        && r[i].content != []
        && (correctAnswer != ChoiceLetters[i] ==> !SaysCorrect(r[i].content))
        && (correctAnswer == ChoiceLetters[i] && strategyTexts.Some? && Lookup(strategyTexts.value, ChoiceLetters[i]) != [] ==>
              r[i].content == Lookup(strategyTexts.value, ChoiceLetters[i]))
  {
    var r := BuildResult(ByLetter(ExplainedTexts(correctAnswer, strategyTexts, fallbackMatches)),
                         correctAnswer, selectedAnswer, Some(options));
    forall i | 0 <= i < 4
      ensures && r[i].letter == Letters[i]
              && (r[i].isCorrect <==> correctAnswer == ChoiceLetters[i])
              && (r[i].isSelected <==> i < |options| && options[i].id == selectedAnswer &&
                                       forall j :: 0 <= j < i ==> options[j].id != selectedAnswer)
              && r[i].content != []
              && (correctAnswer != ChoiceLetters[i] ==> !SaysCorrect(r[i].content))
              && (correctAnswer == ChoiceLetters[i] && strategyTexts.Some? && Lookup(strategyTexts.value, ChoiceLetters[i]) != [] ==>
                    r[i].content == Lookup(strategyTexts.value, ChoiceLetters[i]))
    {
      CollegeBoardEntry(correctAnswer, selectedAnswer, options, strategyTexts, fallbackMatches, i);
    }
  }

  /** The i-th choice letter is the one-character string of the i-th letter. */
  lemma ChoiceLetterChar(i: nat)
    requires i < 4
    ensures ChoiceLetters[i] == [Letters[i]]
  {
  }

  /** One entry of `parseCollegeBoardExplanation`'s result. */
  lemma CollegeBoardEntry(correctAnswer: string, selectedAnswer: string, options: seq<AnswerOption>,
                          strategyTexts: Option<map<string, string>>, fallbackMatches: map<string, string>, i: nat)
    requires selectedAnswer != [] && |options| <= 0x1_0000 && i < 4
    ensures var r := BuildResult(ByLetter(ExplainedTexts(correctAnswer, strategyTexts, fallbackMatches)),
                                 correctAnswer, selectedAnswer, Some(options));
      && |r| == 4
      && r[i].letter == Letters[i]
      && (r[i].isCorrect <==> correctAnswer == ChoiceLetters[i])
      && (r[i].isSelected <==> i < |options| && options[i].id == selectedAnswer &&
                                forall j :: 0 <= j < i ==> options[j].id != selectedAnswer)
      && r[i].content != []
      && (correctAnswer != ChoiceLetters[i] ==> !SaysCorrect(r[i].content))
      && (correctAnswer == ChoiceLetters[i] && strategyTexts.Some? && Lookup(strategyTexts.value, ChoiceLetters[i]) != [] ==>
            r[i].content == Lookup(strategyTexts.value, ChoiceLetters[i]))
  {
    var parsed := if strategyTexts.Some? then EmptyTexts + strategyTexts.value else FallbackUpTo(correctAnswer, fallbackMatches, 4);
    var texts := ExplainedTexts(correctAnswer, strategyTexts, fallbackMatches);
    var letter := ChoiceLetters[i];
    ChoiceLetterChar(i);
    SelectedEntry(ByLetter(texts), correctAnswer, selectedAnswer, options, i);
    FinalPassLetter(parsed, correctAnswer, 4, i);
    FinalPassEntryFacts(letter, correctAnswer, Lookup(parsed, letter));
    assert Lookup(texts, letter) == FinalPassEntry(letter, correctAnswer, Lookup(parsed, letter));
    if strategyTexts.Some? {
      assert Lookup(parsed, letter) == Lookup(strategyTexts.value, letter) || Lookup(strategyTexts.value, letter) == [];
    }
  }

  /**
   * `parseCollegeBoardExplanation`: [] without a rationale or options;
   * otherwise the strategy texts (or strategy 4's) go through the final pass
   * and become the four entries.
   */
  method ParseCollegeBoardExplanation(rationale: string, correctAnswer: string, selectedAnswer: string,
                                      options: Option<seq<AnswerOption>>,
                                      strategyTexts: Option<map<string, string>>, fallbackMatches: map<string, string>)
    returns (result: seq<ParsedExplanation>)
    ensures rationale == [] || options.None? ==> result == []
    ensures rationale != [] && options.Some? ==>
      result == BuildResult(ByLetter(ExplainedTexts(correctAnswer, strategyTexts, fallbackMatches)),
                            correctAnswer, selectedAnswer, options)
  {
    if rationale == [] || options.None? {
      return [];
    }
    var explanations := EmptyTexts;
    if strategyTexts.Some? {
      explanations := explanations + strategyTexts.value;
    } else {
      explanations := ParseFallback(correctAnswer, fallbackMatches);
    }
    explanations := FinalPass(explanations, correctAnswer);
    result := BuildResult(ByLetter(explanations), correctAnswer, selectedAnswer, options);
  }

  /** The final pass over the letters A-D, in order. */
  method FinalPass(parsed: map<string, string>, correctAnswer: string) returns (explanations: map<string, string>)
    ensures explanations == FinalPassUpTo(parsed, correctAnswer, 4)
  {
    explanations := parsed;
    var k := 0;
    while k < 4
      invariant 0 <= k <= 4
      invariant explanations == FinalPassUpTo(parsed, correctAnswer, k)
    {
      var letter := ChoiceLetters[k];
      explanations := explanations[letter := FinalPassEntry(letter, correctAnswer, Lookup(explanations, letter))];
      k := k + 1;
    }
  }

  /** Strategy 4: the correct letter first, then each other letter still without text. */
  method ParseFallback(correctAnswer: string, fallbackMatches: map<string, string>) returns (explanations: map<string, string>)
    ensures explanations == FallbackUpTo(correctAnswer, fallbackMatches, 4)
  {
    explanations := EmptyTexts[correctAnswer := CorrectFallback(correctAnswer, fallbackMatches)];
    var k := 0;
    while k < 4
      invariant 0 <= k <= 4
      invariant explanations == FallbackUpTo(correctAnswer, fallbackMatches, k)
    {
      var letter := ChoiceLetters[k];
      if letter != correctAnswer && Lookup(explanations, letter) == [] {
        explanations := explanations[letter := OtherFallback(letter, fallbackMatches)];
      }
      k := k + 1;
    }
  }

  // ---------------------------------------------------------------------
  // Session counters
  // ---------------------------------------------------------------------

  /** The truthiness of a question's `answered` and `isCorrect` members. */
  datatype QuestionState = QuestionState(answered: bool, isCorrect: bool)

  /** The integer part of the session statistics; the accuracy percentage is not modelled. */
  datatype SessionStats = SessionStats(totalQuestions: nat, answeredQuestions: nat, correctAnswers: nat, incorrectAnswers: int)

  function AnsweredCount(questions: seq<QuestionState>): nat
  {
    if questions == [] then 0
    else AnsweredCount(questions[..|questions| - 1]) + (if questions[|questions| - 1].answered then 1 else 0)
  }

  /** Correct answers count only among answered questions. */
  function CorrectCount(questions: seq<QuestionState>): nat
  {
    if questions == [] then 0
    else
      var q := questions[|questions| - 1];
      CorrectCount(questions[..|questions| - 1]) + (if q.answered && q.isCorrect then 1 else 0)
  }

  lemma {:induction false} CountsOrdered(questions: seq<QuestionState>)
    ensures CorrectCount(questions) <= AnsweredCount(questions) <= |questions|
  {
    if questions != [] {
      CountsOrdered(questions[..|questions| - 1]);
    }
  }

  /** `getSessionStats`: the counters of one pass over the questions; incorrect answers are never negative. */
  method GetSessionStats(questions: seq<QuestionState>) returns (stats: SessionStats)
    ensures stats.totalQuestions == |questions|
    ensures stats.answeredQuestions == AnsweredCount(questions)
    ensures stats.correctAnswers == CorrectCount(questions)
    ensures stats.incorrectAnswers == stats.answeredQuestions - stats.correctAnswers >= 0
    ensures stats.answeredQuestions <= stats.totalQuestions
  {
    var answered := 0;
    var correct := 0;
    var i := 0;
    while i < |questions|
      invariant 0 <= i <= |questions|
      invariant answered == AnsweredCount(questions[..i])
      invariant correct == CorrectCount(questions[..i])
    {
      assert questions[..i + 1][..i] == questions[..i];
      if questions[i].answered {
        answered := answered + 1;
        if questions[i].isCorrect {
          correct := correct + 1;
        }
      }
      i := i + 1;
    }
    assert questions[..|questions|] == questions;
    CountsOrdered(questions);
    stats := SessionStats(|questions|, answered, correct, answered - correct);
  }
}
