/**
 * The browser-side wrong-question store: the two IndexedDB object stores
 * ("wrongQuestions" keyed by `externalId`, "questionProgress" keyed by
 * `questionId`) as maps, and the module-level list of update callbacks.
 * Callbacks are compared by identity, so they are modelled as numbers, and
 * calling one is recorded in the `notified` trace.
 *
 * The clock and the outcome of the immediate cloud push are parameters; the
 * push itself belongs to the synchronisation service.
 */
module LocalStore {
  import opened Wrappers
  import opened Text
  import opened JsValues
  import opened EnhancedPractice

  /** A record of the wrong-question store; `timestamp` and `syncTime` are epoch milliseconds. */
  datatype WrongQuestion = WrongQuestion(
    id: string,
    externalId: string,
    question: JsValue,
    userAnswer: string,
    correctAnswer: string,
    timestamp: int,
    attempts: int,
    isSynced: bool,
    syncTime: Option<int>)

  /** A record of the progress store. */
  datatype PracticeProgress = PracticeProgress(
    questionId: string,
    answered: bool,
    isCorrect: bool,
    userAnswer: string,
    timestamp: int,
    checked: Option<bool>)

  /** A registered update callback, identified as `===` identifies functions. */
  type Callback = nat

  /** What `JSON.parse` makes of an import file. */
  datatype ImportInput =
    /** Text `JSON.parse` rejects, or `null`, whose fields cannot be read: either way the import throws. */
    | Unparseable
    | Document(wrongQuestions: Option<seq<WrongQuestion>>, progress: Option<seq<PracticeProgress>>)

  // ---------------------------------------------------------------------
  // The callback list
  // ---------------------------------------------------------------------

  /** `callbacks.filter(cb => cb !== callback)`. */
  function Without(callbacks: seq<Callback>, callback: Callback): (r: seq<Callback>)
    ensures callback !in r
    ensures forall c :: c != callback ==> multiset(r)[c] == multiset(callbacks)[c]
  {
    if callbacks == [] then []
    else
      var rest := Without(callbacks[1..], callback);
      assert callbacks == [callbacks[0]] + callbacks[1..];
      if callbacks[0] == callback then rest else [callbacks[0]] + rest
  }

  /** Filtering keeps the order: it distributes over concatenation. */
  lemma {:induction false} WithoutAppend(a: seq<Callback>, b: seq<Callback>, callback: Callback)
    ensures Without(a + b, callback) == Without(a, callback) + Without(b, callback)
  {
    if a != [] {
      assert (a + b)[1..] == a[1..] + b;
      WithoutAppend(a[1..], b, callback);
    } else {
      assert a + b == b;
    }
  }

  /** Removing a callback that was never registered changes nothing. */
  lemma {:induction false} WithoutAbsent(callbacks: seq<Callback>, callback: Callback)
    requires callback !in callbacks
    ensures Without(callbacks, callback) == callbacks
  {
    if callbacks != [] {
      WithoutAbsent(callbacks[1..], callback);
      assert callbacks == [callbacks[0]] + callbacks[1..];
    }
  }

  // ---------------------------------------------------------------------
  // The record `saveWrongQuestion` writes
  // ---------------------------------------------------------------------

  /** The key the record is stored under: `String(question.external_id || "")`. */
  function StoredKey(question: JsValue): string
  {
    StringOr(Get(question, "external_id"), "")
  }

  /** The previous record of the question, looked up under the key it is stored under. */
  function ExistingRecord(records: map<string, WrongQuestion>, question: JsValue): Option<WrongQuestion>
  {
    var key := StoredKey(question);
    if key in records then Some(records[key]) else None
  }

  /**
   * The lookup as written: `find(q => q.externalId === question.external_id)`
   * compares the stored string id with the raw id, so only a string id can match.
   */
  function AsWrittenExisting(records: map<string, WrongQuestion>, question: JsValue): Option<WrongQuestion>
  {
    match Get(question, "external_id")
    case JsStr(id) => if id in records then Some(records[id]) else None
    case _ => None
  }

  /** For a string id both lookups find the same record. */
  lemma LookupsAgreeOnStringIds(records: map<string, WrongQuestion>, question: JsValue)
    requires Get(question, "external_id").JsStr?
    ensures AsWrittenExisting(records, question) == ExistingRecord(records, question)
  {
  }

  /** The `correctAnswer` of the record: the first raw answer, the raw answer, or the cleaned one. */
  function SavedCorrectAnswer(question: JsValue, cleaned: CleanedQuestion): string
  {
    var answers := Get(question, "correct_answer");
    if answers.JsArr? && |answers.items| > 0 then ToJsString(answers.items[0])
    else if Truthy(answers) then ToJsString(answers)
    else if cleaned.correctAnswer != [] && cleaned.correctAnswer[0] != [] then cleaned.correctAnswer[0]
    else "A"
  }

  /** The record written for a wrong answer given the previous record; `syncedAt` is the time of a successful immediate push. */
  function SavedRecord(question: JsValue, cleaned: CleanedQuestion, userAnswer: string, now: int,
                       existing: Option<WrongQuestion>, syncedAt: Option<int>): (r: WrongQuestion)
    ensures r.externalId == r.id == StoredKey(question)
    ensures r.attempts == if existing.Some? then existing.value.attempts + 1 else 1
    ensures r.isSynced <==> syncedAt.Some?
    ensures r.timestamp == now && r.userAnswer == userAnswer && r.question == Encode(cleaned)
  {
    WrongQuestion(
      StoredKey(question),
      StoredKey(question),
      Encode(cleaned),
      userAnswer,
      SavedCorrectAnswer(question, cleaned),
      now,
      if existing.Some? then existing.value.attempts + 1 else 1,
      syncedAt.Some?,
      syncedAt)
  }

  /** The store after `saveWrongQuestion`: a falsy question changes nothing, any other is upserted under its key. */
  function SaveSpec(records: map<string, WrongQuestion>, question: JsValue, userAnswer: string, now: int,
                    syncedAt: Option<int>): map<string, WrongQuestion>
  {
    match CleanQuestion(question)
    case None => records
    case Some(cleaned) =>
      records[StoredKey(question) := SavedRecord(question, cleaned, userAnswer, now, ExistingRecord(records, question), syncedAt)]
  }

  /** A truthy question's save writes its saved record, marked synced when the push succeeded, under its key. */
  lemma SaveSpecWrites(records: map<string, WrongQuestion>, question: JsValue, cleaned: CleanedQuestion, userAnswer: string,
                       now: int, syncedAt: Option<int>, record: WrongQuestion)
    requires CleanQuestion(question) == Some(cleaned)
    requires var unsynced := SavedRecord(question, cleaned, userAnswer, now, ExistingRecord(records, question), None);
      record == if syncedAt.Some? then unsynced.(isSynced := true, syncTime := syncedAt) else unsynced
    ensures SaveSpec(records, question, userAnswer, now, syncedAt) == records[StoredKey(question) := record]
    ensures record.externalId == StoredKey(question)
  {
  }

  /** The same with the lookup as written. */
  function AsWrittenSave(records: map<string, WrongQuestion>, question: JsValue, userAnswer: string, now: int,
                         syncedAt: Option<int>): map<string, WrongQuestion>
  {
    match CleanQuestion(question)
    case None => records
    case Some(cleaned) =>
      records[StoredKey(question) := SavedRecord(question, cleaned, userAnswer, now, AsWrittenExisting(records, question), syncedAt)]
  }

  /**
   * Saving upserts exactly one key: the question's record holds one more
   * attempt than before (or one), is unsynced unless the immediate push
   * succeeded, and every other key keeps its record.
   */
  lemma SaveUpserts(records: map<string, WrongQuestion>, question: JsValue, userAnswer: string, now: int,
                    syncedAt: Option<int>)
    requires Truthy(question)
    ensures var after := SaveSpec(records, question, userAnswer, now, syncedAt);
      var key := StoredKey(question);
      && after.Keys == records.Keys + {key}
      && after[key].attempts == (if key in records then records[key].attempts + 1 else 1)
      && (after[key].isSynced <==> syncedAt.Some?)
      && forall k :: k in records && k != key ==> after[k] == records[k]
  {
  }

  /** Two saves of the same question in a row count two attempts. */
  lemma SaveTwiceCountsTwice(records: map<string, WrongQuestion>, question: JsValue, userAnswer: string,
                             first: int, second: int)
    requires Truthy(question) && StoredKey(question) !in records
    ensures SaveSpec(SaveSpec(records, question, userAnswer, first, None), question, userAnswer, second, None)[StoredKey(question)].attempts == 2
  {
  }

  /** As written, a question whose id is the number 42 is counted as a first attempt however often it is saved. */
  lemma AsWrittenLookupMisses()
    ensures var question := JsObj(map["external_id" := JsNum(42)]);
      var once := AsWrittenSave(map[], question, "B", 1000, None);
      var twice := AsWrittenSave(once, question, "B", 2000, None);
      && "42" in once && "42" in twice
      && twice["42"].attempts == 1
      && SaveSpec(SaveSpec(map[], question, "B", 1000, None), question, "B", 2000, None)["42"].attempts == 2
  {
    var question := JsObj(map["external_id" := JsNum(42)]);
    assert Get(question, "external_id") == JsNum(42);
    assert StoredKey(question) == "42" by {
      assert NatToString(42) == NatToString(4) + [DigitChar(2)];
    }
    SaveTwiceCountsTwice(map[], question, "B", 1000, 2000);
  }

  // ---------------------------------------------------------------------
  // Marking records as synced
  // ---------------------------------------------------------------------

  /** The store after `markQuestionAsSynced(externalId)` at time `now`. */
  function MarkSpec(records: map<string, WrongQuestion>, externalId: string, now: int): (r: map<string, WrongQuestion>)
    ensures r.Keys == records.Keys
    ensures externalId in records ==> r[externalId] == records[externalId].(isSynced := true, syncTime := Some(now))
    ensures forall k :: k in records && k != externalId ==> r[k] == records[k]
  {
    if externalId in records then records[externalId := records[externalId].(isSynced := true, syncTime := Some(now))] else records
  }

  /** The store after marking several ids in turn. */
  function MarkAll(records: map<string, WrongQuestion>, ids: seq<string>, now: int): map<string, WrongQuestion>
  {
    if ids == [] then records else MarkSpec(MarkAll(records, ids[..|ids| - 1], now), ids[|ids| - 1], now)
  }

  /** The callbacks invoked by marking several ids in turn: one round per id that has a record. */
  function MarkNotices(records: map<string, WrongQuestion>, ids: seq<string>, callbacks: seq<Callback>): seq<Callback>
  {
    if ids == [] then []
    else MarkNotices(records, ids[..|ids| - 1], callbacks) + (if ids[|ids| - 1] in records then callbacks else [])
  }

  /**
   * Marking several ids keeps the keys, makes exactly the listed records
   * synced at `now`, and leaves the others as they were.
   */
  lemma {:induction false} MarkAllEffect(records: map<string, WrongQuestion>, ids: seq<string>, now: int)
    ensures MarkAll(records, ids, now).Keys == records.Keys
    ensures forall k :: k in records && k in ids ==>
      MarkAll(records, ids, now)[k] == records[k].(isSynced := true, syncTime := Some(now))
    ensures forall k :: k in records && k !in ids ==> MarkAll(records, ids, now)[k] == records[k]
  {
    if ids != [] {
      var init := ids[..|ids| - 1];
      MarkAllEffect(records, init, now);
      assert forall k :: k in ids <==> k in init || k == ids[|ids| - 1];
    }
  }

  // ---------------------------------------------------------------------
  // Import
  // ---------------------------------------------------------------------

  /** An imported record: its question is sanitised again and a missing correct answer is taken from it. */
  function Prepared(item: WrongQuestion): (r: WrongQuestion)
    ensures r.externalId == item.externalId
  {
    var question := if Truthy(item.question) then Encode(CleanQuestion(item.question).value) else item.question;
    var answers := Get(question, "correct_answer");
    var correctAnswer :=
      if item.correctAnswer == [] && Truthy(answers) then
        (if answers.JsArr? then (if answers.items != [] then ToJsString(answers.items[0]) else "") else ToJsString(answers))
      else item.correctAnswer;
    item.(question := question, correctAnswer := correctAnswer)
  }

  /** The wrong-question store after writing the first items of an import, one `put` each. */
  function PutAll(records: map<string, WrongQuestion>, items: seq<WrongQuestion>): map<string, WrongQuestion>
  {
    if items == [] then records
    else
      var last := items[|items| - 1];
      PutAll(records, items[..|items| - 1])[last.externalId := Prepared(last)]
  }

  /** The progress store after writing progress records, each under its own `questionId`. */
  function PutAllProgress(progress: map<string, PracticeProgress>, items: seq<PracticeProgress>): map<string, PracticeProgress>
  {
    if items == [] then progress
    else
      var last := items[|items| - 1];
      PutAllProgress(progress, items[..|items| - 1])[last.questionId := last]
  }

  /** The keys after an import: the old ones and the imported ones. */
  lemma {:induction false} PutAllKeys(records: map<string, WrongQuestion>, items: seq<WrongQuestion>, key: string)
    ensures key in PutAll(records, items) <==> key in records || exists i :: 0 <= i < |items| && items[i].externalId == key
  {
    if items != [] {
      PutAllKeys(records, items[..|items| - 1], key);
      PutAllLastKey(records, items, key);
      CarriesKeySplit(items, items[..|items| - 1], key);
    }
  }

  /** Some item carries the key exactly when an earlier one or the last one does. */
  lemma CarriesKeySplit(items: seq<WrongQuestion>, init: seq<WrongQuestion>, key: string)
    requires items != [] && init == items[..|items| - 1]
    ensures (exists i :: 0 <= i < |items| && items[i].externalId == key) <==>
      (exists i :: 0 <= i < |init| && init[i].externalId == key) || items[|items| - 1].externalId == key
  {
    if exists i :: 0 <= i < |items| && items[i].externalId == key {
      var i :| 0 <= i < |items| && items[i].externalId == key;
      if i < |init| {
        assert init[i] == items[i];
      }
    }
    if exists i :: 0 <= i < |init| && init[i].externalId == key {
      var i :| 0 <= i < |init| && init[i].externalId == key;
      assert items[i] == init[i];
    }
  }

  /** The last item of an import adds its own key and no other. */
  lemma PutAllLastKey(records: map<string, WrongQuestion>, items: seq<WrongQuestion>, key: string)
    requires items != []
    ensures key in PutAll(records, items) <==>
      key in PutAll(records, items[..|items| - 1]) || key == items[|items| - 1].externalId
  {
  }

  /** A key no item carries keeps its record. */
  lemma {:induction false} PutAllUntouched(records: map<string, WrongQuestion>, items: seq<WrongQuestion>, key: string)
    requires key in records
    requires forall i :: 0 <= i < |items| ==> items[i].externalId != key
    ensures key in PutAll(records, items) && PutAll(records, items)[key] == records[key]
  {
    if items != [] {
      PutAllUntouched(records, items[..|items| - 1], key);
    }
  }

  /** An imported key holds the prepared form of the last item with that key. */
  lemma {:induction false} PutAllLastWins(records: map<string, WrongQuestion>, items: seq<WrongQuestion>, i: nat)
    requires i < |items|
    requires forall j :: i < j < |items| ==> items[j].externalId != items[i].externalId
    ensures items[i].externalId in PutAll(records, items)
    ensures PutAll(records, items)[items[i].externalId] == Prepared(items[i])
  {
    if i < |items| - 1 {
      var init := items[..|items| - 1];
      assert init[i] == items[i];
      PutAllLastWins(records, init, i);
    }
  }

  /** A record whose question and answer survive being imported again. */
  predicate Reimportable(r: WrongQuestion)
  {
    && r.correctAnswer != []
    && (Truthy(r.question) ==> CleanQuestion(r.question).Some? && Encode(CleanQuestion(r.question).value) == r.question)
  }

  /** Importing an export of the store into an empty store gives the store back, when its records re-import unchanged. */
  lemma {:induction false} ExportImportRoundTrip(records: map<string, WrongQuestion>, listed: seq<WrongQuestion>)
    requires forall k :: k in records ==> records[k].externalId == k && Reimportable(records[k])
    requires forall i :: 0 <= i < |listed| ==> listed[i].externalId in records && records[listed[i].externalId] == listed[i]
    requires forall i, j :: 0 <= i < j < |listed| ==> listed[i].externalId != listed[j].externalId
    requires forall k :: k in records ==> exists i :: 0 <= i < |listed| && listed[i].externalId == k
    ensures PutAll(map[], listed) == records
  {
    forall k | k in records ensures k in PutAll(map[], listed) && PutAll(map[], listed)[k] == records[k] {
      var i :| 0 <= i < |listed| && listed[i].externalId == k;
      PutAllLastWins(map[], listed, i);
      assert Prepared(listed[i]) == listed[i];
    }
    forall k | k in PutAll(map[], listed) ensures k in records {
      PutAllKeys(map[], listed, k);
    }
  }

  /** `listed` holds every record of the store exactly once. */
  ghost predicate Lists(records: map<string, WrongQuestion>, listed: seq<WrongQuestion>)
  {
    && (forall i :: 0 <= i < |listed| ==> listed[i].externalId in records && records[listed[i].externalId] == listed[i])
    && (forall k :: k in records ==> exists i :: 0 <= i < |listed| && listed[i].externalId == k)
    && (forall i, j :: 0 <= i < j < |listed| ==> listed[i].externalId != listed[j].externalId)
  }

  /** `allLocalQuestions.filter(q => !q.is_synced)`. */
  function Unsynced(listed: seq<WrongQuestion>): (r: seq<WrongQuestion>)
    ensures forall q :: q in r <==> q in listed && !q.isSynced
  {
    if listed == [] then []
    else
      var init := listed[..|listed| - 1];
      var last := listed[|listed| - 1];
      assert forall q :: q in listed <==> q in init || q == last;
      Unsynced(init) + (if !last.isSynced then [last] else [])
  }

  /** Filtering keeps the listing's ids distinct. */
  lemma {:induction false} UnsyncedDistinct(listed: seq<WrongQuestion>)
    requires forall i, j :: 0 <= i < j < |listed| ==> listed[i].externalId != listed[j].externalId
    ensures forall i, j :: 0 <= i < j < |Unsynced(listed)| ==> Unsynced(listed)[i].externalId != Unsynced(listed)[j].externalId
  {
    if listed != [] {
      var init := listed[..|listed| - 1];
      var last := listed[|listed| - 1];
      UnsyncedDistinct(init);
      var r := Unsynced(listed);
      var front := Unsynced(init);
      assert r == front + (if !last.isSynced then [last] else []);
      forall i, j | 0 <= i < j < |r| ensures r[i].externalId != r[j].externalId {
        assert r[i] == front[i];
        if j < |front| {
          assert r[j] == front[j];
        } else {
          assert r[j] == last;
          assert front[i] in front;
          assert front[i] in init;
          var x :| 0 <= x < |init| && init[x] == front[i];
          assert listed[x] == init[x] && x < |listed| - 1;
          assert listed[x].externalId != listed[|listed| - 1].externalId;
        }
      }
    }
  }

  // ---------------------------------------------------------------------
  // The store
  // ---------------------------------------------------------------------

  class WrongQuestionStore {
    var wrongQuestions: map<string, WrongQuestion>
    var progress: map<string, PracticeProgress>
    var callbacks: seq<Callback>
    /** Every callback invocation so far, in order. */
    var notified: seq<Callback>

    /** Each store keeps its key path: a record sits under its own `externalId` / `questionId`. */
    ghost predicate Valid()
      reads this
    {
      && (forall k :: k in wrongQuestions ==> wrongQuestions[k].externalId == k)
      && (forall k :: k in progress ==> progress[k].questionId == k)
    }

    constructor()
      ensures Valid()
      ensures wrongQuestions == map[] && progress == map[] && callbacks == [] && notified == []
    {
      wrongQuestions := map[];
      progress := map[];
      callbacks := [];
      notified := [];
    }

    /** `onWrongQuestionsUpdate`. */
    method On(callback: Callback)
      modifies this
      ensures callbacks == old(callbacks) + [callback]
      ensures wrongQuestions == old(wrongQuestions) && progress == old(progress) && notified == old(notified)
    {
      callbacks := callbacks + [callback];
    }

    /** `offWrongQuestionsUpdate`: every registration of the callback goes, the others stay in order. */
    method Off(callback: Callback)
      modifies this
      ensures callbacks == Without(old(callbacks), callback)
      ensures wrongQuestions == old(wrongQuestions) && progress == old(progress) && notified == old(notified)
    {
      callbacks := Without(callbacks, callback);
    }

    /** `notifyWrongQuestionsUpdate`: each registered callback is called once, in registration order. */
    method Notify()
      modifies this
      ensures notified == old(notified) + old(callbacks)
      ensures wrongQuestions == old(wrongQuestions) && progress == old(progress) && callbacks == old(callbacks)
    {
      var i := 0;
      while i < |callbacks|
        invariant 0 <= i <= |callbacks|
        invariant notified == old(notified) + callbacks[..i]
        invariant wrongQuestions == old(wrongQuestions) && progress == old(progress) && callbacks == old(callbacks)
      {
        notified := notified + [callbacks[i]];
        i := i + 1;
        assert callbacks[..i] == callbacks[..i - 1] + [callbacks[i - 1]];
      }
      assert callbacks[..|callbacks|] == callbacks;
    }

    /**
     * `saveWrongQuestion`: a falsy question changes nothing and notifies no
     * one; otherwise the record is written (and written again as synced when
     * the immediate push succeeded) and the callbacks are notified once.
     */
    method SaveWrongQuestion(question: JsValue, userAnswer: string, now: int, syncedAt: Option<int>)
      requires Valid()
      modifies this
      ensures Valid()
      ensures wrongQuestions == SaveSpec(old(wrongQuestions), question, userAnswer, now, syncedAt)
      ensures notified == if Truthy(question) then old(notified) + old(callbacks) else old(notified)
      ensures progress == old(progress) && callbacks == old(callbacks)
    {
      var cleaned := CleanQuestion(question);
      if cleaned.None? {
        return;
      }
      ghost var before := wrongQuestions;
      var key := StoredKey(question);
      var existing := if key in wrongQuestions then Some(wrongQuestions[key]) else None;
      var record := SavedRecord(question, cleaned.value, userAnswer, now, existing, None);
      Put(key, record);
      if syncedAt.Some? {
        record := record.(isSynced := true, syncTime := syncedAt);
        Put(key, record);
      }
      SaveSpecWrites(before, question, cleaned.value, userAnswer, now, syncedAt, record);
      Notify();
    }

    /** The object store's `put`: the record is written under its own key. */
    method Put(key: string, record: WrongQuestion)
      requires Valid() && record.externalId == key
      modifies this
      ensures Valid()
      ensures wrongQuestions == old(wrongQuestions)[key := record]
      ensures progress == old(progress) && callbacks == old(callbacks) && notified == old(notified)
    {
      wrongQuestions := wrongQuestions[key := record];
    }

    /** `removeWrongQuestion`: the key is deleted and the callbacks are notified. */
    method RemoveWrongQuestion(externalId: string)
      requires Valid()
      modifies this
      ensures Valid()
      ensures wrongQuestions == old(wrongQuestions) - {externalId}
      ensures notified == old(notified) + old(callbacks)
      ensures progress == old(progress) && callbacks == old(callbacks)
    {
      wrongQuestions := wrongQuestions - {externalId};
      Notify();
    }

    /** `clearWrongQuestions`: the wrong-question store is emptied and the callbacks are notified. */
    method ClearWrongQuestions()
      requires Valid()
      modifies this
      ensures Valid()
      ensures wrongQuestions == map[]
      ensures notified == old(notified) + old(callbacks)
      ensures progress == old(progress) && callbacks == old(callbacks)
    {
      wrongQuestions := map[];
      Notify();
    }

    /** `saveQuestionProgress`: the record goes under its own `questionId` (the separate id argument is unused). */
    method SaveQuestionProgress(questionId: string, record: PracticeProgress)
      requires Valid()
      modifies this
      ensures Valid()
      ensures progress == old(progress)[record.questionId := record]
      ensures wrongQuestions == old(wrongQuestions) && callbacks == old(callbacks) && notified == old(notified)
    {
      progress := progress[record.questionId := record];
    }

    /** `markQuestionAsSynced`: only the matching record becomes synced; nothing happens when there is none. */
    method MarkQuestionAsSynced(externalId: string, now: int)
      requires Valid()
      modifies this
      ensures Valid()
      ensures wrongQuestions == MarkSpec(old(wrongQuestions), externalId, now)
      ensures notified == if externalId in old(wrongQuestions) then old(notified) + old(callbacks) else old(notified)
      ensures progress == old(progress) && callbacks == old(callbacks)
    {
      if externalId in wrongQuestions {
        var record := wrongQuestions[externalId];
        wrongQuestions := wrongQuestions[externalId := record.(isSynced := true, syncTime := Some(now))];
        Notify();
      }
    }

    /** `getWrongQuestions`: every record once (in an order the model does not fix). */
    method GetWrongQuestions() returns (records: seq<WrongQuestion>)
      requires Valid()
      ensures Lists(wrongQuestions, records)
    {
      records := [];
      var remaining := wrongQuestions.Keys;
      while remaining != {}
        invariant remaining <= wrongQuestions.Keys
        invariant forall i :: 0 <= i < |records| ==>
          records[i].externalId in wrongQuestions.Keys - remaining && wrongQuestions[records[i].externalId] == records[i]
        invariant forall k :: k in wrongQuestions.Keys - remaining ==> exists i :: 0 <= i < |records| && records[i].externalId == k
        invariant forall i, j :: 0 <= i < j < |records| ==> records[i].externalId != records[j].externalId
        decreases remaining
      {
        var k :| k in remaining;
        ghost var previous := records;
        ghost var before := remaining;
        records := records + [wrongQuestions[k]];
        remaining := remaining - {k};
        forall k' | k' in wrongQuestions.Keys - remaining
          ensures exists i :: 0 <= i < |records| && records[i].externalId == k'
        {
          if k' == k {
            assert records[|previous|].externalId == k';
          } else {
            assert k' in wrongQuestions.Keys - before;
            var i :| 0 <= i < |previous| && previous[i].externalId == k';
            assert records[i] == previous[i];
          }
        }
      }
      assert wrongQuestions.Keys - remaining == wrongQuestions.Keys;
    }

    /**
     * `exportWrongQuestions`: every record once and the progress records by
     * question id (the JSON text, export date and version are not modelled).
     */
    method ExportWrongQuestions() returns (listed: seq<WrongQuestion>, exported: map<string, PracticeProgress>)
      requires Valid()
      ensures Lists(wrongQuestions, listed)
      ensures exported == progress
    {
      listed := GetWrongQuestions();
      exported := progress;
    }

    /** `getUnsyncedQuestions`: exactly the records not marked synced. */
    method GetUnsyncedQuestions() returns (records: seq<WrongQuestion>)
      requires Valid()
      ensures forall r :: r in records <==> r in wrongQuestions.Values && !r.isSynced
      ensures forall i, j :: 0 <= i < j < |records| ==> records[i].externalId != records[j].externalId
    {
      var all := GetWrongQuestions();
      records := Unsynced(all);
      UnsyncedDistinct(all);
      forall r | r in all ensures r in wrongQuestions.Values {
        var a :| 0 <= a < |all| && all[a] == r;
        assert wrongQuestions[all[a].externalId] == r;
      }
      forall r | r in wrongQuestions.Values && !r.isSynced ensures r in all {
        var k :| k in wrongQuestions && wrongQuestions[k] == r;
        var a :| 0 <= a < |all| && all[a].externalId == k;
      }
    }

    /** The wrong-question writes of an import, one `put` per item in order. */
    method PutEach(items: seq<WrongQuestion>)
      requires Valid()
      modifies this
      ensures Valid()
      ensures wrongQuestions == PutAll(old(wrongQuestions), items)
      ensures progress == old(progress) && callbacks == old(callbacks) && notified == old(notified)
    {
      var i := 0;
      while i < |items|
        invariant 0 <= i <= |items|
        invariant Valid()
        invariant wrongQuestions == PutAll(old(wrongQuestions), items[..i])
        invariant progress == old(progress) && callbacks == old(callbacks) && notified == old(notified)
      {
        assert items[..i + 1][..i] == items[..i];
        wrongQuestions := wrongQuestions[items[i].externalId := Prepared(items[i])];
        i := i + 1;
      }
      assert items[..|items|] == items;
    }

    /** The progress writes of an import, one `put` per record in order. */
    method PutEachProgress(entries: seq<PracticeProgress>)
      requires Valid()
      modifies this
      ensures Valid()
      ensures progress == PutAllProgress(old(progress), entries)
      ensures wrongQuestions == old(wrongQuestions) && callbacks == old(callbacks) && notified == old(notified)
    {
      var j := 0;
      while j < |entries|
        invariant 0 <= j <= |entries|
        invariant Valid()
        invariant progress == PutAllProgress(old(progress), entries[..j])
        invariant wrongQuestions == old(wrongQuestions) && callbacks == old(callbacks) && notified == old(notified)
      {
        assert entries[..j + 1][..j] == entries[..j];
        progress := progress[entries[j].questionId := entries[j]];
        j := j + 1;
      }
      assert entries[..|entries|] == entries;
    }

    /**
     * `importWrongQuestions`: an unparseable file changes nothing and returns
     * false; otherwise every item is written in order, then the progress
     * records, and the callbacks are notified once, after all writes.
     */
    method ImportWrongQuestions(input: ImportInput) returns (ok: bool)
      requires Valid()
      modifies this
      ensures Valid()
      ensures ok <==> input.Document?
      ensures !ok ==> wrongQuestions == old(wrongQuestions) && progress == old(progress) && notified == old(notified)
      ensures ok ==>
        && wrongQuestions == PutAll(old(wrongQuestions), input.wrongQuestions.GetOr([]))
        && progress == PutAllProgress(old(progress), input.progress.GetOr([]))
        && notified == old(notified) + old(callbacks)
      ensures callbacks == old(callbacks)
    {
      if input.Unparseable? {
        return false;
      }
      PutEach(input.wrongQuestions.GetOr([]));
      PutEachProgress(input.progress.GetOr([]));
      Notify();
      return true;
    }
  }
}
