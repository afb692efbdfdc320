/**
 * The synchronisation service: the cloud tables of the signed-in user, the
 * `syncInProgress` flag, the push of unsynced records (`syncToCloud`), the
 * two-way sync (`intelligentBidirectionalSync`) and the batch writes they
 * share. A failing database call is a parameter; a thrown error ends a sync
 * with a failure result.
 */
module SyncService {
  import opened Wrappers
  import opened JsValues
  import opened LocalStore
  import opened SyncRules
  import opened RateLimiter

  /** A row of `questions_master`. */
  datatype MasterRow = MasterRow(questionData: JsValue, domain: string, questionType: string)

  /** The two cloud tables: the signed-in user's wrong answers and the shared question table, by external id. */
  class CloudTables {
    var answers: map<string, CloudRow>
    var master: map<string, MasterRow>

    constructor(answers0: map<string, CloudRow>, master0: map<string, MasterRow>)
      ensures answers == answers0 && master == master0
    {
      answers := answers0;
      master := master0;
    }

    /**
     * `getCloudWrongQuestions`: the user's rows, each once, in an order the
     * model does not fix; a select that returns an error throws.
     */
    method Select(readFails: bool) returns (listing: seq<CloudEntry>, threw: bool)
      ensures threw == readFails
      ensures threw ==> listing == []
      ensures !threw ==> CloudMap(listing) == answers
      ensures forall i, j :: 0 <= i < j < |listing| ==> listing[i].questionExternalId != listing[j].questionExternalId
    {
      listing := [];
      if readFails {
        return listing, true;
      }
      threw := false;
      var remaining := answers.Keys;
      while remaining != {}
        invariant remaining <= answers.Keys
        invariant CloudMap(listing) == Listed(answers, remaining)
        invariant forall i :: 0 <= i < |listing| ==> listing[i].questionExternalId !in remaining
        invariant forall i, j :: 0 <= i < j < |listing| ==> listing[i].questionExternalId != listing[j].questionExternalId
        decreases remaining
      {
        var k :| k in remaining;
        SelectStep(answers, remaining, listing, k);
        listing := listing + [CloudEntry(k, answers[k])];
        remaining := remaining - {k};
      }
      assert Listed(answers, remaining) == answers;
    }
  }

  /** The rows of the table whose ids are no longer waiting to be listed. */
  ghost function Listed(answers: map<string, CloudRow>, remaining: set<string>): map<string, CloudRow>
  {
    map k | k in answers && k !in remaining :: answers[k]
  }

  lemma SelectStep(answers: map<string, CloudRow>, remaining: set<string>, listing: seq<CloudEntry>, k: string)
    requires k in remaining && remaining <= answers.Keys
    requires CloudMap(listing) == Listed(answers, remaining)
    ensures CloudMap(listing + [CloudEntry(k, answers[k])]) == Listed(answers, remaining - {k})
  {
    var next := listing + [CloudEntry(k, answers[k])];
    assert next[..|next| - 1] == listing;
    assert Listed(answers, remaining - {k}) == Listed(answers, remaining)[k := answers[k]];
  }

  datatype SyncResult = SyncResult(success: bool, conflicts: seq<SyncConflict>, synced: int, errors: seq<string>, rateLimited: bool)

  const InProgress: SyncResult := SyncResult(false, [], 0, ["Sync already in progress"], false)
  const NotAuthenticated: SyncResult := SyncResult(false, [], 0, ["User not authenticated"], false)
  const RateLimited: SyncResult := SyncResult(false, [], 0, ["Rate limit exceeded. Please try again later."], true)

  /** The result of a sync that threw; the error's text is not modelled. */
  const Failed: SyncResult := SyncResult(false, [], 0, ["Error"], false)

  // ---------------------------------------------------------------------
  // Specification of the batch writes
  // ---------------------------------------------------------------------

  /** The master row inserted for a local record; domain and type default to "" and "mcq". */
  function MasterRowOf(question: WrongQuestion): MasterRow
  {
    MasterRow(question.question, StringOr(Get(question.question, "domain"), ""), StringOr(Get(question.question, "type"), "mcq"))
  }

  /** The records whose question is not yet in the master table. */
  function MissingQuestions(master: map<string, MasterRow>, questions: seq<WrongQuestion>): (r: seq<WrongQuestion>)
    ensures forall q :: q in r <==> q in questions && q.externalId !in master
  {
    if questions == [] then []
    else
      var init := questions[..|questions| - 1];
      var last := questions[|questions| - 1];
      assert forall q :: q in questions <==> q in init || q == last;
      MissingQuestions(master, init) + (if last.externalId !in master then [last] else [])
  }

  /** The master table after inserting rows for the given records. */
  function InsertRows(master: map<string, MasterRow>, rows: seq<WrongQuestion>): map<string, MasterRow>
  {
    if rows == [] then master
    else
      var last := rows[|rows| - 1];
      InsertRows(master, rows[..|rows| - 1])[last.externalId := MasterRowOf(last)]
  }

  /** `batchEnsureQuestionsInMaster` when its insert succeeds. */
  function EnsureSpec(master: map<string, MasterRow>, questions: seq<WrongQuestion>): map<string, MasterRow>
  {
    InsertRows(master, MissingQuestions(master, questions))
  }

  /** The upload step throws: a needed master insert fails, or the upsert fails. */
  predicate UploadFails(master: map<string, MasterRow>, questions: seq<WrongQuestion>, insertFails: bool, upsertFails: bool)
  {
    questions != [] && ((insertFails && MissingQuestions(master, questions) != []) || upsertFails)
  }

  lemma {:induction false} InsertRowsEffect(master: map<string, MasterRow>, rows: seq<WrongQuestion>)
    ensures forall k :: k in InsertRows(master, rows) <==> k in master || exists q :: q in rows && q.externalId == k
    ensures forall k :: k in master && (forall q :: q in rows ==> q.externalId != k) ==> InsertRows(master, rows)[k] == master[k]
  {
    if rows != [] {
      var init := rows[..|rows| - 1];
      InsertRowsEffect(master, init);
      assert forall q :: q in rows <==> q in init || q == rows[|rows| - 1];
    }
  }

  /**
   * Ensuring adds a row for exactly the questions missing from the master
   * table and never overwrites a row that was there.
   */
  lemma EnsureInsertsOnlyMissing(master: map<string, MasterRow>, questions: seq<WrongQuestion>)
    ensures forall k :: k in EnsureSpec(master, questions) <==> k in master || exists q :: q in questions && q.externalId == k
    ensures forall k :: k in master ==> EnsureSpec(master, questions)[k] == master[k]
  {
    InsertRowsEffect(master, MissingQuestions(master, questions));
  }

  /** The user's rows after the batch upsert of the given records. */
  function UpsertRows(answers: map<string, CloudRow>, questions: seq<WrongQuestion>, now: int): map<string, CloudRow>
  {
    if questions == [] then answers
    else
      var last := questions[|questions| - 1];
      UpsertRows(answers, questions[..|questions| - 1], now)[last.externalId := UploadRow(last, now)]
  }

  /** The external ids of the records, in order. */
  function ExternalIds(questions: seq<WrongQuestion>): (r: seq<string>)
    ensures |r| == |questions| && forall i :: 0 <= i < |r| ==> r[i] == questions[i].externalId
  {
    if questions == [] then [] else ExternalIds(questions[..|questions| - 1]) + [questions[|questions| - 1].externalId]
  }

  /**
   * After a successful batch upsert every pushed record's row holds its
   * upload row, and rows of other questions are as they were.
   */
  lemma {:induction false} UpsertRowsEffect(answers: map<string, CloudRow>, questions: seq<WrongQuestion>, now: int)
    requires forall i, j :: 0 <= i < j < |questions| ==> questions[i].externalId != questions[j].externalId
    ensures forall q :: q in questions ==> q.externalId in UpsertRows(answers, questions, now) && UpsertRows(answers, questions, now)[q.externalId] == UploadRow(q, now)
    ensures forall k :: k in answers && (forall q :: q in questions ==> q.externalId != k) ==>
      k in UpsertRows(answers, questions, now) && UpsertRows(answers, questions, now)[k] == answers[k]
  {
    if questions != [] {
      var init := questions[..|questions| - 1];
      UpsertRowsEffect(answers, init, now);
      assert forall q :: q in questions <==> q in init || q == questions[|questions| - 1];
    }
  }

  // ---------------------------------------------------------------------
  // The download, as written and corrected
  // ---------------------------------------------------------------------

  /**
   * The user's rows after the download of a cloud entry as written: the
   * local save runs the immediate push, which upserts a fresh row for the
   * question with one attempt and first and last time now.
   */
  function AsWrittenDownloadRows(answers: map<string, CloudRow>, master: map<string, MasterRow>, entry: CloudEntry, now: int): map<string, CloudRow>
  {
    if entry.questionExternalId in master && Truthy(master[entry.questionExternalId].questionData) then
      var data := master[entry.questionExternalId].questionData;
      answers[StoredKey(data) := ImmediateRow(data, entry.row.userAnswer, now)]
    else answers
  }

  /** As written, downloading a question answered wrong five times since 1000 resets its cloud row to one attempt today. */
  lemma AsWrittenDownloadResetsHistory()
    ensures var row := CloudRow("B", "C", 5, 1000, 50000, true, Some(50000));
      var master := map["q1" := MasterRow(JsObj(map["external_id" := JsStr("q1")]), "", "mcq")];
      var after := AsWrittenDownloadRows(map["q1" := row], master, CloudEntry("q1", row), 900000);
      && after["q1"].attempts == 1
      && after["q1"].firstWrongAt == 900000
  {
    var data := JsObj(map["external_id" := JsStr("q1")]);
    assert Get(data, "external_id") == JsStr("q1");
    assert StoredKey(data) == "q1";
  }

  /**
   * The record the corrected download keeps locally holds the cloud answer,
   * so it never forms a real conflict with its row, and the merge of a later
   * sync keeps the row's attempts and first time.
   */
  lemma DownloadedRecordMergesBack(records: map<string, WrongQuestion>, entry: CloudEntry, data: JsValue, now: int, later: int)
    requires Truthy(data) && StoredKey(data) == entry.questionExternalId && entry.questionExternalId !in records
    requires entry.row.attempts >= 1
    ensures var saved := SaveSpec(records, data, entry.row.userAnswer, now, None)[entry.questionExternalId];
      var cloud := map[entry.questionExternalId := entry.row];
      && !HasRealConflict(saved, entry.row)
      && (Classify(saved, cloud) == InSync || Classify(saved, cloud) == AutoUpdate(entry.row))
      && MergedRow(saved, entry.row, later).attempts == entry.row.attempts
      && MergedRow(saved, entry.row, later).firstWrongAt <= entry.row.firstWrongAt
  {
    SaveUpserts(records, data, entry.row.userAnswer, now, None);
  }

  // ---------------------------------------------------------------------
  // Specification of the two-way sync's writes
  // ---------------------------------------------------------------------

  /** The user's rows after `updateExistingCloudQuestion` for each pair in turn; an update of a missing row changes nothing. */
  function UpdateRowsSpec(answers: map<string, CloudRow>, updates: seq<UpdatePair>, now: int): map<string, CloudRow>
  {
    if updates == [] then answers
    else
      var rows := UpdateRowsSpec(answers, updates[..|updates| - 1], now);
      var u := updates[|updates| - 1];
      if u.local.externalId in rows then rows[u.local.externalId := MergedRow(u.local, u.cloud, now)] else rows
  }

  /** The ids of the local records of the update pairs, in order. */
  function UpdateIds(updates: seq<UpdatePair>): (r: seq<string>)
    ensures |r| == |updates| && forall i :: 0 <= i < |r| ==> r[i] == updates[i].local.externalId
  {
    if updates == [] then [] else UpdateIds(updates[..|updates| - 1]) + [updates[|updates| - 1].local.externalId]
  }

  /**
   * The local store after the corrected `downloadQuestionFromCloud`: when
   * the master table has the question, it is saved with the cloud answer
   * (without a push back) and then marked synced.
   */
  function DownloadSpec(records: map<string, WrongQuestion>, master: map<string, MasterRow>, entry: CloudEntry, now: int): map<string, WrongQuestion>
  {
    if entry.questionExternalId in master then
      MarkSpec(SaveSpec(records, master[entry.questionExternalId].questionData, entry.row.userAnswer, now, None), entry.questionExternalId, now)
    else records
  }

  /**
   * The callbacks notified by one download: once by the save of a truthy
   * question and once more when the record under the row's id exists to be
   * marked synced.
   */
  function DownloadNotices(records: map<string, WrongQuestion>, master: map<string, MasterRow>, entry: CloudEntry, now: int,
                           callbacks: seq<Callback>): seq<Callback>
  {
    if entry.questionExternalId in master then
      var question := master[entry.questionExternalId].questionData;
      (if Truthy(question) then callbacks else [])
      + (if entry.questionExternalId in SaveSpec(records, question, entry.row.userAnswer, now, None) then callbacks else [])
    else []
  }

  function DownloadAll(records: map<string, WrongQuestion>, master: map<string, MasterRow>, entries: seq<CloudEntry>, now: int): map<string, WrongQuestion>
  {
    if entries == [] then records
    else DownloadSpec(DownloadAll(records, master, entries[..|entries| - 1], now), master, entries[|entries| - 1], now)
  }

  /** Only updated questions change their rows, each to the merge of its pair. */
  lemma {:induction false} UpdateRowsEffect(answers: map<string, CloudRow>, updates: seq<UpdatePair>, now: int)
    requires forall i, j :: 0 <= i < j < |updates| ==> updates[i].local.externalId != updates[j].local.externalId
    ensures UpdateRowsSpec(answers, updates, now).Keys == answers.Keys
    ensures forall u :: u in updates && u.local.externalId in answers ==>
      UpdateRowsSpec(answers, updates, now)[u.local.externalId] == MergedRow(u.local, u.cloud, now)
    ensures forall k :: k in answers && (forall u :: u in updates ==> u.local.externalId != k) ==>
      UpdateRowsSpec(answers, updates, now)[k] == answers[k]
  {
    if updates != [] {
      var init := updates[..|updates| - 1];
      UpdateRowsEffect(answers, init, now);
      assert forall u :: u in updates <==> u in init || u == updates[|updates| - 1];
    }
  }

  // ---------------------------------------------------------------------
  // The service
  // ---------------------------------------------------------------------

  class WrongQuestionsSyncService {
    /** Set while `syncToCloud` runs; a second call meanwhile is turned away. */
    var syncInProgress: bool

    constructor()
      ensures !syncInProgress
    {
      syncInProgress := false;
    }

    /**
     * `batchEnsureQuestionsInMaster`: nothing for an empty list; otherwise a
     * row for each question missing from the master table, or a thrown
     * error (and no row) when the insert fails.
     */
    method BatchEnsureQuestionsInMaster(cloud: CloudTables, questions: seq<WrongQuestion>, insertFails: bool) returns (threw: bool)
      modifies cloud
      ensures threw <==> questions != [] && insertFails && MissingQuestions(old(cloud.master), questions) != []
      ensures cloud.master == if questions == [] || threw then old(cloud.master) else EnsureSpec(old(cloud.master), questions)
      ensures cloud.answers == old(cloud.answers)
    {
      if questions == [] {
        return false;
      }
      var existing := set k | k in cloud.master && exists q :: q in questions && q.externalId == k;
      var toInsert := [];
      var i := 0;
      while i < |questions|
        invariant 0 <= i <= |questions|
        invariant toInsert == MissingQuestions(cloud.master, questions[..i])
      {
        assert questions[..i + 1][..i] == questions[..i];
        assert questions[i] in questions;
        if questions[i].externalId !in existing {
          toInsert := toInsert + [questions[i]];
        }
        i := i + 1;
      }
      assert questions[..|questions|] == questions;
      if toInsert != [] {
        if insertFails {
          return true;
        }
        cloud.master := InsertRows(cloud.master, toInsert);
      }
      return false;
    }

    /**
     * `batchSyncUserWrongAnswers`: nothing for an empty list; a failing
     * upsert throws and marks nothing; otherwise every record's row is
     * upserted, then each record is marked synced, and the count of records
     * is returned.
     */
    method BatchSyncUserWrongAnswers(local: WrongQuestionStore, cloud: CloudTables, questions: seq<WrongQuestion>, now: int, upsertFails: bool)
      returns (synced: int, threw: bool)
      requires local.Valid()
      modifies local, cloud
      ensures local.Valid()
      ensures threw <==> questions != [] && upsertFails
      ensures synced == if questions == [] || threw then 0 else |questions|
      ensures questions == [] || threw ==>
        && cloud.answers == old(cloud.answers)
        && local.wrongQuestions == old(local.wrongQuestions) && local.notified == old(local.notified)
      ensures questions != [] && !threw ==>
        && cloud.answers == UpsertRows(old(cloud.answers), questions, now)
        && local.wrongQuestions == MarkAll(old(local.wrongQuestions), ExternalIds(questions), now)
        && local.notified == old(local.notified) + MarkNotices(old(local.wrongQuestions), ExternalIds(questions), old(local.callbacks))
      ensures cloud.master == old(cloud.master)
      ensures local.progress == old(local.progress) && local.callbacks == old(local.callbacks)
    {
      if questions == [] {
        return 0, false;
      }
      if upsertFails {
        return 0, true;
      }
      cloud.answers := UpsertRows(cloud.answers, questions, now);
      MarkEachSynced(local, ExternalIds(questions), now);
      return |questions|, false;
    }

    /** The loop of `batchSyncUserWrongAnswers` that marks each pushed record synced, in order. */
    method MarkEachSynced(local: WrongQuestionStore, ids: seq<string>, now: int)
      requires local.Valid()
      modifies local
      ensures local.Valid()
      ensures local.wrongQuestions == MarkAll(old(local.wrongQuestions), ids, now)
      ensures local.notified == old(local.notified) + MarkNotices(old(local.wrongQuestions), ids, old(local.callbacks))
      ensures local.progress == old(local.progress) && local.callbacks == old(local.callbacks)
    {
      var i := 0;
      while i < |ids|
        invariant 0 <= i <= |ids|
        invariant local.Valid()
        invariant local.wrongQuestions == MarkAll(old(local.wrongQuestions), ids[..i], now)
        invariant local.notified == old(local.notified) + MarkNotices(old(local.wrongQuestions), ids[..i], old(local.callbacks))
        invariant local.progress == old(local.progress) && local.callbacks == old(local.callbacks)
      {
        assert ids[..i + 1][..i] == ids[..i];
        MarkAllEffect(old(local.wrongQuestions), ids[..i], now);
        local.MarkQuestionAsSynced(ids[i], now);
        i := i + 1;
      }
      assert ids[..|ids|] == ids;
    }

    /**
     * `syncToCloud`: turned away while a sync runs; otherwise, for a
     * signed-in user within the rate limit, the unsynced records without a
     * conflicting cloud row are pushed and the conflicts are reported. The
     * flag is set only after the rate check and is clear again at the end.
     * `listed` is the order in which the local store listed its records.
     */
    method SyncToCloud(local: WrongQuestionStore, cloud: CloudTables, limiter: RateLimitTable, userId: Option<string>, now: int,
                       rateOutage: Outage, readFails: bool, insertFails: bool, upsertFails: bool)
      returns (result: SyncResult, ghost listed: seq<WrongQuestion>)
      requires local.Valid() && limiter.Valid()
      modifies this, local, cloud, limiter
      ensures local.Valid() && limiter.Valid()
      ensures old(syncInProgress) ==>
        && result == InProgress && syncInProgress
        && limiter.rows == old(limiter.rows)
      ensures !old(syncInProgress) ==> !syncInProgress
      ensures userId.None? ==> limiter.rows == old(limiter.rows)
      ensures !old(syncInProgress) && userId.None? ==> result == NotAuthenticated
      ensures !old(syncInProgress) && userId.Some? ==>
        limiter.rows == CheckSpec(old(limiter.rows), userId.value, "sync", now, rateOutage).rows
      ensures !old(syncInProgress) && userId.Some? && !CheckSpec(old(limiter.rows), userId.value, "sync", now, rateOutage).allowed ==>
        result == RateLimited
      ensures (old(syncInProgress) || userId.None? || !CheckSpec(old(limiter.rows), userId.value, "sync", now, rateOutage).allowed) ==>
        && local.wrongQuestions == old(local.wrongQuestions) && local.notified == old(local.notified)
        && cloud.answers == old(cloud.answers) && cloud.master == old(cloud.master)
      ensures !old(syncInProgress) && userId.Some? && CheckSpec(old(limiter.rows), userId.value, "sync", now, rateOutage).allowed ==>
        && Lists(old(local.wrongQuestions), listed)
        && PushOutcome(old(local.wrongQuestions), old(local.notified), old(local.callbacks), old(cloud.answers), old(cloud.master),
                       listed, now, readFails, insertFails, upsertFails,
                       result, local.wrongQuestions, local.notified, cloud.answers, cloud.master)
      ensures local.progress == old(local.progress) && local.callbacks == old(local.callbacks)
    {
      listed := [];
      if syncInProgress {
        return InProgress, listed;
      }
      if userId.None? {
        return NotAuthenticated, listed;
      }
      var allowed, _ := limiter.CheckRateLimit(userId.value, "sync", now, rateOutage);
      if !allowed {
        return RateLimited, listed;
      }
      syncInProgress := true;
      var all := local.GetWrongQuestions();
      listed := all;
      var unsynced := Unsynced(all);
      if unsynced == [] {
        syncInProgress := false;
        return SyncResult(true, [], 0, [], false), listed;
      }
      var listing, threw := cloud.Select(readFails);
      if threw {
        syncInProgress := false;
        return Failed, listed;
      }
      var split := SplitPush(unsynced, CloudMap(listing));
      if split.toSync == [] {
        syncInProgress := false;
        return SyncResult(true, split.conflicts, 0, [], false), listed;
      }
      threw := BatchEnsureQuestionsInMaster(cloud, split.toSync, insertFails);
      if threw {
        syncInProgress := false;
        return Failed, listed;
      }
      var synced;
      synced, threw := BatchSyncUserWrongAnswers(local, cloud, split.toSync, now, upsertFails);
      syncInProgress := false;
      if threw {
        return Failed, listed;
      }
      return SyncResult(true, split.conflicts, synced, [], false), listed;
    }

    /**
     * `updateExistingCloudQuestion`: the row takes the merged data and the
     * record is marked synced; a failing update throws before either.
     */
    method UpdateExistingCloudQuestion(local: WrongQuestionStore, cloud: CloudTables, pair: UpdatePair, now: int, updateFails: bool)
      returns (threw: bool)
      requires local.Valid()
      modifies local, cloud
      ensures local.Valid()
      ensures threw == updateFails
      ensures threw ==> cloud.answers == old(cloud.answers) && local.wrongQuestions == old(local.wrongQuestions)
      ensures !threw ==> cloud.answers == UpdateRowsSpec(old(cloud.answers), [pair], now)
      ensures !threw ==> local.wrongQuestions == MarkSpec(old(local.wrongQuestions), pair.local.externalId, now)
      ensures local.notified == old(local.notified) + (if !threw && pair.local.externalId in old(local.wrongQuestions) then old(local.callbacks) else [])
      ensures cloud.master == old(cloud.master) && local.progress == old(local.progress) && local.callbacks == old(local.callbacks)
    {
      if updateFails {
        return true;
      }
      var id := pair.local.externalId;
      if id in cloud.answers {
        cloud.answers := cloud.answers[id := MergedRow(pair.local, pair.cloud, now)];
      }
      local.MarkQuestionAsSynced(id, now);
      return false;
    }

    /** The update loop of `intelligentBidirectionalSync`; the first failing update ends it. */
    method ApplyUpdates(local: WrongQuestionStore, cloud: CloudTables, updates: seq<UpdatePair>, now: int, updateFails: bool)
      returns (threw: bool)
      requires local.Valid()
      modifies local, cloud
      ensures local.Valid()
      ensures threw <==> updates != [] && updateFails
      ensures threw ==> cloud.answers == old(cloud.answers) && local.wrongQuestions == old(local.wrongQuestions)
      ensures !threw ==> cloud.answers == UpdateRowsSpec(old(cloud.answers), updates, now)
      ensures !threw ==> local.wrongQuestions == MarkAll(old(local.wrongQuestions), UpdateIds(updates), now)
      ensures cloud.master == old(cloud.master) && local.progress == old(local.progress) && local.callbacks == old(local.callbacks)
    {
      var i := 0;
      while i < |updates|
        invariant 0 <= i <= |updates|
        invariant local.Valid()
        invariant cloud.answers == UpdateRowsSpec(old(cloud.answers), updates[..i], now)
        invariant local.wrongQuestions == MarkAll(old(local.wrongQuestions), UpdateIds(updates[..i]), now)
        invariant cloud.master == old(cloud.master) && local.progress == old(local.progress) && local.callbacks == old(local.callbacks)
        invariant updateFails ==> i == 0
      {
        assert updates[..i + 1][..i] == updates[..i];
        assert UpdateIds(updates[..i + 1])[..i] == UpdateIds(updates[..i]);
        threw := UpdateExistingCloudQuestion(local, cloud, updates[i], now, updateFails);
        if threw {
          return true;
        }
        i := i + 1;
      }
      assert updates[..|updates|] == updates;
      return false;
    }

    /** The corrected `downloadQuestionFromCloud`: the question is kept locally and the cloud is left alone. */
    method DownloadQuestionFromCloud(local: WrongQuestionStore, cloud: CloudTables, entry: CloudEntry, now: int)
      requires local.Valid()
      modifies local
      ensures local.Valid()
      ensures local.wrongQuestions == DownloadSpec(old(local.wrongQuestions), cloud.master, entry, now)
      ensures local.notified == old(local.notified) + DownloadNotices(old(local.wrongQuestions), cloud.master, entry, now, old(local.callbacks))
      ensures local.progress == old(local.progress) && local.callbacks == old(local.callbacks)
    {
      if entry.questionExternalId in cloud.master {
        local.SaveWrongQuestion(cloud.master[entry.questionExternalId].questionData, entry.row.userAnswer, now, None);
        local.MarkQuestionAsSynced(entry.questionExternalId, now);
      }
    }

    /** The download loop of `intelligentBidirectionalSync`. */
    method ApplyDownloads(local: WrongQuestionStore, cloud: CloudTables, entries: seq<CloudEntry>, now: int)
      requires local.Valid()
      modifies local
      ensures local.Valid()
      ensures local.wrongQuestions == DownloadAll(old(local.wrongQuestions), cloud.master, entries, now)
      ensures local.progress == old(local.progress) && local.callbacks == old(local.callbacks)
    {
      var i := 0;
      while i < |entries|
        invariant 0 <= i <= |entries|
        invariant local.Valid()
        invariant local.wrongQuestions == DownloadAll(old(local.wrongQuestions), cloud.master, entries[..i], now)
        invariant local.progress == old(local.progress) && local.callbacks == old(local.callbacks)
      {
        assert entries[..i + 1][..i] == entries[..i];
        DownloadQuestionFromCloud(local, cloud, entries[i], now);
        i := i + 1;
      }
      assert entries[..|entries|] == entries;
    }

    /**
     * `intelligentBidirectionalSync` for a signed-in user: the diff of the
     * listed local records and cloud rows, then the records already in sync
     * are marked, new records are uploaded, automatic updates are merged
     * into their rows and cloud-only questions are downloaded. Conflicts
     * are reported and left alone. The result is `Failed`, with nothing
     * written, when reading the cloud rows fails, and otherwise exactly when
     * a write that is actually needed fails.
     */
    method IntelligentBidirectionalSync(local: WrongQuestionStore, cloud: CloudTables, userId: Option<string>, now: int,
                                        readFails: bool, insertFails: bool, upsertFails: bool, updateFails: bool)
      returns (result: SyncResult, ghost listed: seq<WrongQuestion>, ghost listing: seq<CloudEntry>)
      requires local.Valid()
      modifies local, cloud
      ensures local.Valid()
      ensures userId.None? ==>
        && result == NotAuthenticated
        && local.wrongQuestions == old(local.wrongQuestions) && cloud.answers == old(cloud.answers) && cloud.master == old(cloud.master)
      ensures userId.Some? && readFails ==>
        && result == Failed
        && local.wrongQuestions == old(local.wrongQuestions) && local.notified == old(local.notified)
        && cloud.answers == old(cloud.answers) && cloud.master == old(cloud.master)
      ensures userId.Some? && !readFails ==> Lists(old(local.wrongQuestions), listed) && CloudMap(listing) == old(cloud.answers)
      ensures userId.Some? && !readFails ==> var plan := PlanSpec(listed, listing);
        && (result == Failed || result == SyncResult(true, plan.conflicts, |plan.alreadySynced| + |plan.upload| + |plan.update| + |plan.download|, [], false))
        && (result == Failed <==>
              UploadFails(old(cloud.master), plan.upload, insertFails, upsertFails) || (plan.update != [] && updateFails))
        && (result.success ==>
             && cloud.master == EnsureSpec(old(cloud.master), plan.upload)
             && cloud.answers == UpdateRowsSpec(UpsertRows(old(cloud.answers), plan.upload, now), plan.update, now)
             && local.wrongQuestions == DownloadAll(
                  MarkAll(MarkAll(MarkAll(old(local.wrongQuestions), plan.alreadySynced, now), ExternalIds(plan.upload), now), UpdateIds(plan.update), now),
                  cloud.master, plan.download, now))
      ensures local.progress == old(local.progress) && local.callbacks == old(local.callbacks)
    {
      listed, listing := [], [];
      if userId.None? {
        return NotAuthenticated, listed, listing;
      }
      var locals := local.GetWrongQuestions();
      var cloudListing, readThrew := cloud.Select(readFails);
      if readThrew {
        return Failed, listed, listing;
      }
      listed, listing := locals, cloudListing;
      var plan := PlanSync(locals, cloudListing);
      MarkEachSynced(local, plan.alreadySynced, now);
      var synced := |plan.alreadySynced|;
      var threw := UploadNew(local, cloud, plan.upload, now, insertFails, upsertFails);
      if threw {
        return Failed, listed, listing;
      }
      synced := synced + |plan.upload|;
      threw := ApplyUpdates(local, cloud, plan.update, now, updateFails);
      if threw {
        return Failed, listed, listing;
      }
      synced := synced + |plan.update|;
      ApplyDownloads(local, cloud, plan.download, now);
      synced := synced + |plan.download|;
      return SyncResult(true, plan.conflicts, synced, [], false), listed, listing;
    }

    /**
     * The upload step of the bidirectional sync: questions missing from the
     * cloud are put into the master table, their rows are upserted and they
     * are marked synced locally; nothing happens for an empty list.
     */
    method UploadNew(local: WrongQuestionStore, cloud: CloudTables, questions: seq<WrongQuestion>, now: int,
                     insertFails: bool, upsertFails: bool)
      returns (threw: bool)
      requires local.Valid()
      modifies local, cloud
      ensures local.Valid()
      ensures threw <==> UploadFails(old(cloud.master), questions, insertFails, upsertFails)
      ensures !threw ==>
        && cloud.master == EnsureSpec(old(cloud.master), questions)
        && cloud.answers == UpsertRows(old(cloud.answers), questions, now)
        && local.wrongQuestions == MarkAll(old(local.wrongQuestions), ExternalIds(questions), now)
      ensures local.progress == old(local.progress) && local.callbacks == old(local.callbacks)
    {
      if questions == [] {
        return false;
      }
      threw := BatchEnsureQuestionsInMaster(cloud, questions, insertFails);
      if threw {
        return;
      }
      var uploaded;
      uploaded, threw := BatchSyncUserWrongAnswers(local, cloud, questions, now, upsertFails);
    }

    /**
     * `syncSingleQuestionImmediately`: for a signed-in user the question is
     * put into the master table when missing, then its row is upserted with
     * one attempt at time `now`; any failure gives false.
     */
    method SyncSingleQuestionImmediately(cloud: CloudTables, question: JsValue, userAnswer: string, userId: Option<string>, now: int,
                                         insertFails: bool, upsertFails: bool)
      returns (ok: bool)
      modifies cloud
      ensures var key := StoredKey(question);
        var inserts := userId.Some? && !question.JsNull? && !question.JsUndefined? && key !in old(cloud.master);
        && (ok <==> userId.Some? && !question.JsNull? && !question.JsUndefined? && !(inserts && insertFails) && !upsertFails)
        && cloud.master == (if inserts && !insertFails then old(cloud.master)[key := MasterRow(question, StringOr(Get(question, "domain"), ""), StringOr(Get(question, "type"), "mcq"))] else old(cloud.master))
        && cloud.answers == (if ok then old(cloud.answers)[key := ImmediateRow(question, userAnswer, now)] else old(cloud.answers))
    {
      if userId.None? || question.JsNull? || question.JsUndefined? {
        return false;
      }
      var key := StoredKey(question);
      if key !in cloud.master {
        if insertFails {
          return false;
        }
        cloud.master := cloud.master[key := MasterRow(question, StringOr(Get(question, "domain"), ""), StringOr(Get(question, "type"), "mcq"))];
      }
      if upsertFails {
        return false;
      }
      cloud.answers := cloud.answers[key := ImmediateRow(question, userAnswer, now)];
      return true;
    }

    /** The loop of `syncToCloud` that sets conflicting records aside. */
    method SplitPush(unsynced: seq<WrongQuestion>, cloud: map<string, CloudRow>) returns (split: PushSplit)
      ensures split == SplitForPush(unsynced, cloud)
    {
      split := PushSplit([], []);
      var i := 0;
      while i < |unsynced|
        invariant 0 <= i <= |unsynced|
        invariant split == SplitForPush(unsynced[..i], cloud)
      {
        assert unsynced[..i + 1][..i] == unsynced[..i];
        var local := unsynced[i];
        if local.externalId in cloud {
          var conflict := DetectConflict(local, cloud[local.externalId]);
          if conflict.Some? {
            split := split.(conflicts := split.conflicts + [SyncConflict(local, cloud[local.externalId], conflict.value)]);
            i := i + 1;
            continue;
          }
        }
        split := split.(toSync := split.toSync + [local]);
        i := i + 1;
      }
      assert unsynced[..|unsynced|] == unsynced;
    }
  }

  /**
   * What a push that passed the guards leaves behind, for the store listed
   * as `listed`: nothing changes when no record is unsynced; a failing read
   * of the cloud rows gives `Failed` and changes nothing; nothing changes
   * either when all unsynced records conflict; a failing insert or upsert
   * gives `Failed`; otherwise the
   * records to sync are in the master table, their rows are upserted, they
   * are marked synced, and the result counts them and lists the conflicts.
   */
  ghost predicate PushOutcome(
    records: map<string, WrongQuestion>, notified: seq<Callback>, callbacks: seq<Callback>,
    answers: map<string, CloudRow>, master: map<string, MasterRow>,
    listed: seq<WrongQuestion>, now: int, readFails: bool, insertFails: bool, upsertFails: bool,
    result: SyncResult, records': map<string, WrongQuestion>, notified': seq<Callback>,
    answers': map<string, CloudRow>, master': map<string, MasterRow>)
  {
    var unsynced := Unsynced(listed);
    var split := SplitForPush(unsynced, answers);
    if unsynced == [] then
      result == SyncResult(true, [], 0, [], false)
      && records' == records && notified' == notified && answers' == answers && master' == master
    else if readFails then
      result == Failed && records' == records && notified' == notified && answers' == answers && master' == master
    else if split.toSync == [] then
      result == SyncResult(true, split.conflicts, 0, [], false)
      && records' == records && notified' == notified && answers' == answers && master' == master
    else if insertFails && MissingQuestions(master, split.toSync) != [] then
      result == Failed && records' == records && notified' == notified && answers' == answers && master' == master
    else if upsertFails then
      result == Failed && records' == records && notified' == notified && answers' == answers
      && master' == EnsureSpec(master, split.toSync)
    else
      && result == SyncResult(true, split.conflicts, |split.toSync|, [], false)
      && master' == EnsureSpec(master, split.toSync)
      && answers' == UpsertRows(answers, split.toSync, now)
      && records' == MarkAll(records, ExternalIds(split.toSync), now)
      && notified' == notified + MarkNotices(records, ExternalIds(split.toSync), callbacks)
  }
}
