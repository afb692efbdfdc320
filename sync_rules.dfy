/**
 * The decision rules of the wrong-question synchronisation: when a local
 * record should update its cloud row, when the two form a conflict that is
 * not resolved automatically, the rows written to `user_wrong_answers`, and
 * the diff that sorts local and cloud records into upload, update,
 * conflict, already-in-sync and download lists.
 *
 * The cloud table holds the rows of the signed-in user; a row is keyed by
 * its `question_external_id`. Times are epoch milliseconds.
 */
module SyncRules {
  import opened Wrappers
  import opened JsValues
  import opened LocalStore

  /** A row of `user_wrong_answers` for the signed-in user. */
  datatype CloudRow = CloudRow(
    userAnswer: string,
    correctAnswer: string,
    attempts: int,
    firstWrongAt: int,
    lastWrongAt: int,
    isSynced: bool,
    syncTime: Option<int>)

  /** A row as a select returns it, with the question it belongs to. */
  datatype CloudEntry = CloudEntry(questionExternalId: string, row: CloudRow)

  datatype ConflictType = DifferentAnswer | DifferentAttempts | DifferentTimestamp

  datatype SyncConflict = SyncConflict(localQuestion: WrongQuestion, cloudQuestion: CloudRow, conflictType: ConflictType)

  function Abs(x: int): nat
  {
    if x < 0 then -x else x
  }

  /** Within this distance timestamps count as the same moment. */
  const SameMomentMs: int := 60000

  /** Within this distance different answers count as a real conflict. */
  const ConflictWindowMs: int := 300000

  // ---------------------------------------------------------------------
  // The three predicates
  // ---------------------------------------------------------------------

  /** `shouldUpdateCloud`: the local record has more attempts, is newer, or holds another answer. */
  function ShouldUpdateCloud(local: WrongQuestion, cloud: CloudRow): (r: bool)
    ensures r <==> local.attempts > cloud.attempts || local.timestamp > cloud.lastWrongAt || local.userAnswer != cloud.userAnswer
  {
    if local.attempts > cloud.attempts then true
    else if local.timestamp > cloud.lastWrongAt then true
    else local.userAnswer != cloud.userAnswer
  }

  /**
   * `hasRealConflict`: a local record with more attempts or more than a
   * minute newer is never a conflict; otherwise different answers within
   * five minutes of each other are.
   */
  function HasRealConflict(local: WrongQuestion, cloud: CloudRow): (r: bool)
    ensures local.attempts > cloud.attempts ==> !r
    ensures local.timestamp > cloud.lastWrongAt + SameMomentMs ==> !r
    ensures local.attempts <= cloud.attempts && local.timestamp <= cloud.lastWrongAt + SameMomentMs ==>
      (r <==> local.userAnswer != cloud.userAnswer && Abs(local.timestamp - cloud.lastWrongAt) < ConflictWindowMs)
  {
    if local.attempts > cloud.attempts then false
    else if local.timestamp > cloud.lastWrongAt + SameMomentMs then false
    else local.userAnswer != cloud.userAnswer && Abs(local.timestamp - cloud.lastWrongAt) < ConflictWindowMs
  }

  /** `detectConflict`: the first difference, in the order answer, attempts, timestamp. */
  function DetectConflict(local: WrongQuestion, cloud: CloudRow): (r: Option<ConflictType>)
    ensures r.None? <==>
      local.userAnswer == cloud.userAnswer && local.attempts == cloud.attempts && Abs(local.timestamp - cloud.lastWrongAt) <= SameMomentMs
    ensures r == Some(DifferentAnswer) <==> local.userAnswer != cloud.userAnswer
    ensures r == Some(DifferentAttempts) <==> local.userAnswer == cloud.userAnswer && local.attempts != cloud.attempts
  {
    if local.userAnswer != cloud.userAnswer then Some(DifferentAnswer)
    else if local.attempts != cloud.attempts then Some(DifferentAttempts)
    else if Abs(local.timestamp - cloud.lastWrongAt) > SameMomentMs then Some(DifferentTimestamp)
    else None
  }

  /** A real conflict is always about the answer, and it only arises where the cloud would be updated. */
  lemma RealConflictIsDifferentAnswer(local: WrongQuestion, cloud: CloudRow)
    requires HasRealConflict(local, cloud)
    ensures ShouldUpdateCloud(local, cloud)
    ensures DetectConflict(local, cloud) == Some(DifferentAnswer)
  {
  }

  /** A record that would not update its row holds the same answer, so it is never an answer conflict. */
  lemma InSyncHasSameAnswer(local: WrongQuestion, cloud: CloudRow)
    requires !ShouldUpdateCloud(local, cloud)
    ensures local.userAnswer == cloud.userAnswer && !HasRealConflict(local, cloud)
    ensures DetectConflict(local, cloud) != Some(DifferentAnswer)
  {
  }

  // ---------------------------------------------------------------------
  // Rows written to the cloud
  // ---------------------------------------------------------------------

  /**
   * The merged row of `updateExistingCloudQuestion` and `mergeQuestions`:
   * the local answer, the local correct answer unless it is empty, the
   * larger attempt count, the earlier first and the later last time.
   */
  function MergedRow(local: WrongQuestion, cloud: CloudRow, now: int): (r: CloudRow)
    ensures r.userAnswer == local.userAnswer
    ensures r.correctAnswer == if local.correctAnswer != [] then local.correctAnswer else cloud.correctAnswer
    ensures r.attempts >= local.attempts && r.attempts >= cloud.attempts
    ensures r.attempts == local.attempts || r.attempts == cloud.attempts
    ensures r.firstWrongAt <= local.timestamp && r.firstWrongAt <= cloud.firstWrongAt
    ensures r.firstWrongAt == local.timestamp || r.firstWrongAt == cloud.firstWrongAt
    ensures r.lastWrongAt >= local.timestamp && r.lastWrongAt >= cloud.lastWrongAt
    ensures r.lastWrongAt == local.timestamp || r.lastWrongAt == cloud.lastWrongAt
    ensures r.isSynced && r.syncTime == Some(now)
  {
    CloudRow(
      local.userAnswer,
      if local.correctAnswer != [] then local.correctAnswer else cloud.correctAnswer,
      if local.attempts >= cloud.attempts then local.attempts else cloud.attempts,
      if local.timestamp <= cloud.firstWrongAt then local.timestamp else cloud.firstWrongAt,
      if local.timestamp >= cloud.lastWrongAt then local.timestamp else cloud.lastWrongAt,
      true,
      Some(now))
  }

  /** Merging keeps a row's first time no later than its last time. */
  lemma MergeKeepsTimesOrdered(local: WrongQuestion, cloud: CloudRow, now: int)
    requires cloud.firstWrongAt <= cloud.lastWrongAt
    ensures MergedRow(local, cloud, now).firstWrongAt <= MergedRow(local, cloud, now).lastWrongAt
  {
  }

  /** Merging the same local record again changes nothing but the sync time. */
  lemma MergeIdempotent(local: WrongQuestion, cloud: CloudRow, first: int, second: int)
    ensures MergedRow(local, MergedRow(local, cloud, first), second) == MergedRow(local, cloud, second)
  {
  }

  /** The row `batchSyncUserWrongAnswers` upserts for a local record. */
  function UploadRow(question: WrongQuestion, now: int): (r: CloudRow)
    ensures r.attempts == question.attempts && r.userAnswer == question.userAnswer && r.correctAnswer == question.correctAnswer
    ensures r.firstWrongAt == r.lastWrongAt == question.timestamp
    ensures r.isSynced && r.syncTime == Some(now)
  {
    CloudRow(question.userAnswer, question.correctAnswer, question.attempts, question.timestamp, question.timestamp, true, Some(now))
  }

  /** Right after an upload the record and its row are in sync: nothing to update, no conflict. */
  lemma UploadedRowIsInSync(question: WrongQuestion, now: int)
    ensures !ShouldUpdateCloud(question, UploadRow(question, now))
    ensures DetectConflict(question, UploadRow(question, now)).None?
  {
  }

  /**
   * The row `syncSingleQuestionImmediately` upserts for a raw question:
   * one attempt, first and last time now, whatever the row held before.
   */
  function ImmediateRow(question: JsValue, userAnswer: string, now: int): (r: CloudRow)
    ensures r.attempts == 1 && r.firstWrongAt == now && r.lastWrongAt == now
    ensures r.userAnswer == userAnswer && r.isSynced
  {
    var answers := Get(question, "correct_answer");
    var correctAnswer :=
      if answers.JsArr? then (if answers.items != [] then ToJsString(answers.items[0]) else "")
      else StringOr(answers, "A");
    CloudRow(userAnswer, correctAnswer, 1, now, now, true, Some(now))
  }

  // ---------------------------------------------------------------------
  // The diff of `intelligentBidirectionalSync`
  // ---------------------------------------------------------------------

  /** `new Map(cloudQuestions.map(q => [q.question_external_id, q]))`: the last entry of an id wins. */
  function CloudMap(listing: seq<CloudEntry>): map<string, CloudRow>
  {
    if listing == [] then map[]
    else
      var last := listing[|listing| - 1];
      CloudMap(listing[..|listing| - 1])[last.questionExternalId := last.row]
  }

  lemma {:induction false} CloudMapKeys(listing: seq<CloudEntry>, id: string)
    ensures id in CloudMap(listing) <==> exists i :: 0 <= i < |listing| && listing[i].questionExternalId == id
  {
    if listing != [] {
      var init := listing[..|listing| - 1];
      CloudMapKeys(init, id);
      if exists i :: 0 <= i < |init| && init[i].questionExternalId == id {
        var i :| 0 <= i < |init| && init[i].questionExternalId == id;
        assert listing[i] == init[i];
      }
    }
  }

  /** The ids of the local records. */
  function LocalIds(locals: seq<WrongQuestion>): set<string>
  {
    set i | 0 <= i < |locals| :: locals[i].externalId
  }

  /** Where one local record goes. */
  datatype LocalAction =
    | Upload
    | AutoUpdate(cloud: CloudRow)
    | Conflicted(conflict: Option<ConflictType>, cloud: CloudRow)
    | InSync

  function Classify(local: WrongQuestion, cloud: map<string, CloudRow>): LocalAction
  {
    if local.externalId !in cloud then Upload
    else
      var row := cloud[local.externalId];
      if !ShouldUpdateCloud(local, row) then InSync
      else if HasRealConflict(local, row) then Conflicted(DetectConflict(local, row), row)
      else AutoUpdate(row)
  }

  datatype UpdatePair = UpdatePair(local: WrongQuestion, cloud: CloudRow)

  datatype SyncPlan = SyncPlan(
    upload: seq<WrongQuestion>,
    update: seq<UpdatePair>,
    conflicts: seq<SyncConflict>,
    alreadySynced: seq<string>,
    download: seq<CloudEntry>)

  /** The lists the loop over the local records builds. */
  function PlanLocals(locals: seq<WrongQuestion>, cloud: map<string, CloudRow>): SyncPlan
  {
    if locals == [] then SyncPlan([], [], [], [], [])
    else
      var plan := PlanLocals(locals[..|locals| - 1], cloud);
      var local := locals[|locals| - 1];
      match Classify(local, cloud)
      case Upload => plan.(upload := plan.upload + [local])
      case AutoUpdate(row) => plan.(update := plan.update + [UpdatePair(local, row)])
      case Conflicted(conflict, row) =>
        if conflict.Some? then plan.(conflicts := plan.conflicts + [SyncConflict(local, row, conflict.value)]) else plan
      case InSync => if !local.isSynced then plan.(alreadySynced := plan.alreadySynced + [local.externalId]) else plan
  }

  /** The cloud entries the second loop downloads: those without a local record. */
  function Downloads(listing: seq<CloudEntry>, localIds: set<string>): seq<CloudEntry>
  {
    if listing == [] then []
    else
      var last := listing[|listing| - 1];
      Downloads(listing[..|listing| - 1], localIds) + (if last.questionExternalId !in localIds then [last] else [])
  }

  function PlanSpec(locals: seq<WrongQuestion>, listing: seq<CloudEntry>): SyncPlan
  {
    PlanLocals(locals, CloudMap(listing)).(download := Downloads(listing, LocalIds(locals)))
  }

  /**
   * The lists of the local loop: a record is uploaded exactly when its id
   * has no cloud row, updated exactly when it should update a row it has no
   * real conflict with, and every listed conflict is an answer conflict.
   */
  lemma {:induction false} PlanLocalsSorts(locals: seq<WrongQuestion>, cloud: map<string, CloudRow>)
    ensures var plan := PlanLocals(locals, cloud);
      && (forall q :: q in plan.upload <==> q in locals && q.externalId !in cloud)
      && (forall u :: u in plan.update <==>
            u.local in locals && u.local.externalId in cloud && u.cloud == cloud[u.local.externalId]
            && ShouldUpdateCloud(u.local, u.cloud) && !HasRealConflict(u.local, u.cloud))
      && (forall c :: c in plan.conflicts <==>
            c.localQuestion in locals && c.localQuestion.externalId in cloud && c.cloudQuestion == cloud[c.localQuestion.externalId]
            && HasRealConflict(c.localQuestion, c.cloudQuestion) && c.conflictType == DifferentAnswer)
      && (forall id :: id in plan.alreadySynced <==>
            exists q :: q in locals && q.externalId == id && Classify(q, cloud) == InSync && !q.isSynced)
  {
    if locals != [] {
      var init := locals[..|locals| - 1];
      var local := locals[|locals| - 1];
      PlanLocalsSorts(init, cloud);
      assert forall q :: q in locals <==> q in init || q == local;
      if local.externalId in cloud && HasRealConflict(local, cloud[local.externalId]) {
        RealConflictIsDifferentAnswer(local, cloud[local.externalId]);
      }
    }
  }

  lemma {:induction false} DownloadsExact(listing: seq<CloudEntry>, localIds: set<string>)
    ensures forall e :: e in Downloads(listing, localIds) <==> e in listing && e.questionExternalId !in localIds
  {
    if listing != [] {
      var init := listing[..|listing| - 1];
      DownloadsExact(init, localIds);
      assert forall e :: e in listing <==> e in init || e == listing[|listing| - 1];
    }
  }

  /**
   * The diff sorts every local record into exactly one list, downloads
   * exactly the cloud entries without a local record, and never uploads and
   * downloads the same id.
   */
  lemma PlanPartition(locals: seq<WrongQuestion>, listing: seq<CloudEntry>)
    ensures var plan := PlanSpec(locals, listing);
      && (forall q :: q in plan.upload <==> q in locals && forall i :: 0 <= i < |listing| ==> listing[i].questionExternalId != q.externalId)
      && (forall e :: e in plan.download <==> e in listing && forall q :: q in locals ==> q.externalId != e.questionExternalId)
      && (forall q, e :: q in plan.upload && e in plan.download ==> q.externalId != e.questionExternalId)
      && (forall c :: c in plan.conflicts ==> c.conflictType == DifferentAnswer)
  {
    var cloud := CloudMap(listing);
    var plan := PlanSpec(locals, listing);
    PlanLocalsSorts(locals, cloud);
    DownloadsExact(listing, LocalIds(locals));
    forall q | q in locals
      ensures q.externalId !in cloud <==> forall i :: 0 <= i < |listing| ==> listing[i].questionExternalId != q.externalId
    {
      CloudMapKeys(listing, q.externalId);
    }
    forall e | e in listing
      ensures e.questionExternalId !in LocalIds(locals) <==> forall q :: q in locals ==> q.externalId != e.questionExternalId
    {
      if e.questionExternalId in LocalIds(locals) {
        var i :| 0 <= i < |locals| && locals[i].externalId == e.questionExternalId;
        assert locals[i] in locals;
      }
    }
  }

  /** The diff, as the two loops of `intelligentBidirectionalSync` build it. */
  method PlanSync(locals: seq<WrongQuestion>, listing: seq<CloudEntry>) returns (plan: SyncPlan)
    ensures plan == PlanSpec(locals, listing)
  {
    var cloud := CloudMap(listing);
    var localIds := LocalIds(locals);
    plan := SyncPlan([], [], [], [], []);
    var i := 0;
    while i < |locals|
      invariant 0 <= i <= |locals|
      invariant plan == PlanLocals(locals[..i], cloud)
    {
      assert locals[..i + 1][..i] == locals[..i];
      var local := locals[i];
      if local.externalId !in cloud {
        plan := plan.(upload := plan.upload + [local]);
      } else {
        var row := cloud[local.externalId];
        if ShouldUpdateCloud(local, row) {
          if HasRealConflict(local, row) {
            var conflict := DetectConflict(local, row);
            if conflict.Some? {
              plan := plan.(conflicts := plan.conflicts + [SyncConflict(local, row, conflict.value)]);
            }
          } else {
            plan := plan.(update := plan.update + [UpdatePair(local, row)]);
          }
        } else if !local.isSynced {
          plan := plan.(alreadySynced := plan.alreadySynced + [local.externalId]);
        }
      }
      i := i + 1;
    }
    assert locals[..|locals|] == locals;
    var download := [];
    var j := 0;
    while j < |listing|
      invariant 0 <= j <= |listing|
      invariant download == Downloads(listing[..j], localIds)
    {
      assert listing[..j + 1][..j] == listing[..j];
      if listing[j].questionExternalId !in localIds {
        download := download + [listing[j]];
      }
      j := j + 1;
    }
    assert listing[..|listing|] == listing;
    plan := plan.(download := download);
  }

  // ---------------------------------------------------------------------
  // The split of `syncToCloud`
  // ---------------------------------------------------------------------

  /** The conflicts and the records to push, as the loop of `syncToCloud` builds them. */
  datatype PushSplit = PushSplit(conflicts: seq<SyncConflict>, toSync: seq<WrongQuestion>)

  function SplitForPush(unsynced: seq<WrongQuestion>, cloud: map<string, CloudRow>): PushSplit
  {
    if unsynced == [] then PushSplit([], [])
    else
      var split := SplitForPush(unsynced[..|unsynced| - 1], cloud);
      var local := unsynced[|unsynced| - 1];
      if local.externalId in cloud && DetectConflict(local, cloud[local.externalId]).Some? then
        split.(conflicts := split.conflicts + [SyncConflict(local, cloud[local.externalId], DetectConflict(local, cloud[local.externalId]).value)])
      else split.(toSync := split.toSync + [local])
  }

  /**
   * A record is pushed exactly when it has no cloud row or matches its row
   * (same answer, same attempts, within a minute); every other record is
   * reported as a conflict with the first difference.
   */
  lemma {:induction false} SplitForPushSorts(unsynced: seq<WrongQuestion>, cloud: map<string, CloudRow>)
    ensures var split := SplitForPush(unsynced, cloud);
      && |split.conflicts| + |split.toSync| == |unsynced|
      && (forall q :: q in split.toSync <==> q in unsynced && (q.externalId !in cloud || DetectConflict(q, cloud[q.externalId]).None?))
      && (forall c :: c in split.conflicts <==>
            c.localQuestion in unsynced && c.localQuestion.externalId in cloud && c.cloudQuestion == cloud[c.localQuestion.externalId]
            && DetectConflict(c.localQuestion, c.cloudQuestion) == Some(c.conflictType))
  {
    if unsynced != [] {
      var init := unsynced[..|unsynced| - 1];
      SplitForPushSorts(init, cloud);
      assert forall q :: q in unsynced <==> q in init || q == unsynced[|unsynced| - 1];
    }
  }
}
