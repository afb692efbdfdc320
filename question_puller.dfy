/**
 * The question puller: for one domain it slices the list of question ids
 * into batches of fifty, fetches each question, and inserts it into
 * `questions_master`, updates an incomplete row, or skips a complete one,
 * sleeping three seconds between batches.
 *
 * The question bank's HTTP answers are parameters: `fetch(id)` is the body
 * of the detail request, `None` when the request fails. The master table is
 * a map keyed by the string form of `external_id`. The two-at-a-time
 * concurrency inside a batch is not modelled: a batch's questions are
 * written one after the other, in list order.
 */
module QuestionPuller {
  import opened Wrappers
  import opened JsValues

  const BatchSize: nat := 50
  const BatchDelayMs: nat := 3000

  /** The record handed to `insertOrUpdateQuestion`. */
  datatype Question = Question(externalId: JsValue, questionData: JsValue, domain: JsValue, qtype: JsValue, difficulty: JsValue)

  /**
   * `fetchQuestionById`: the answer's own fields where truthy, otherwise the
   * requested id, the domain being processed, "mcq" and null. A failed
   * request, and an answer of `null` or `undefined` (reading a field of it
   * throws), give `None`.
   */
  function FetchQuestionById(id: string, domain: string, response: Option<JsValue>): (r: Option<Question>)
    ensures r.None? <==> response.None? || response.value.JsNull? || response.value.JsUndefined?
    ensures r.Some? ==>
      var q := response.value;
      && r.value.questionData == q
      && r.value.externalId == (if Truthy(Get(q, "external_id")) then Get(q, "external_id") else JsStr(id))
      && r.value.domain == (if Truthy(Get(q, "domain")) then Get(q, "domain") else JsStr(domain))
      && r.value.qtype == (if Truthy(Get(q, "type")) then Get(q, "type") else JsStr("mcq"))
      && r.value.difficulty == (if Truthy(Get(q, "difficulty_level")) then Get(q, "difficulty_level") else JsNull)
  {
    match response
    case None => None
    case Some(q) =>
      if q.JsNull? || q.JsUndefined? then None
      else
        var externalId := if Truthy(Get(q, "external_id")) then Get(q, "external_id") else JsStr(id);
        var domainValue := if Truthy(Get(q, "domain")) then Get(q, "domain") else if domain != "" then JsStr(domain) else JsStr("");
        Some(Question(
          externalId,
          q,
          domainValue,
          if Truthy(Get(q, "type")) then Get(q, "type") else JsStr("mcq"),
          if Truthy(Get(q, "difficulty_level")) then Get(q, "difficulty_level") else JsNull))
  }

  /** The record passes the integrity check at the top of `insertOrUpdateQuestion`. */
  predicate Writable(q: Question)
  {
    Truthy(q.externalId) && Truthy(q.questionData)
  }

  /** For a non-empty requested id, a fetched record is writable exactly when the answer itself is truthy. */
  lemma FetchedWritableIffTruthy(id: string, domain: string, q: JsValue)
    requires id != "" && !q.JsNull? && !q.JsUndefined?
    ensures FetchQuestionById(id, domain, Some(q)).Some?
    ensures Writable(FetchQuestionById(id, domain, Some(q)).value) <==> Truthy(q)
    ensures Truthy(FetchQuestionById(id, domain, Some(q)).value.qtype)
  {
  }

  /** What `questions_master` holds for one question. */
  datatype MasterEntry = MasterEntry(questionData: JsValue, domain: JsValue, qtype: JsValue, difficulty: JsValue)

  /** A row with a domain and a difficulty is left alone. */
  predicate Complete(entry: MasterEntry)
  {
    Truthy(entry.domain) && !entry.difficulty.JsNull?
  }

  datatype Action = NoWrite | Skip | Update | Insert

  /** The key `.eq('external_id', …)` compares against. */
  function KeyOf(q: Question): string
  {
    ToJsString(q.externalId)
  }

  function EntryOf(q: Question): MasterEntry
  {
    MasterEntry(q.questionData, q.domain, q.qtype, q.difficulty)
  }

  /** The branch `insertOrUpdateQuestion` takes given the row it read. */
  function Decide(q: Question, existing: Option<MasterEntry>): (r: Action)
    ensures r == NoWrite <==> !Writable(q)
    ensures r == Skip <==> Writable(q) && existing.Some? && Complete(existing.value)
    ensures r == Update <==> Writable(q) && existing.Some? && !Complete(existing.value)
    ensures r == Insert <==> Writable(q) && existing.None?
  {
    if !Writable(q) then NoWrite
    else if existing.Some? then
      if Complete(existing.value) then Skip else Update
    else Insert
  }

  function Lookup(rows: map<string, MasterEntry>, key: string): Option<MasterEntry>
  {
    if key in rows then Some(rows[key]) else None
  }

  /** The table after `insertOrUpdateQuestion`; a write that errors is logged and changes nothing. */
  function ApplyWrite(rows: map<string, MasterEntry>, q: Question, writeFails: bool): map<string, MasterEntry>
  {
    match Decide(q, Lookup(rows, KeyOf(q)))
    case NoWrite => rows
    case Skip => rows
    case _ => if writeFails then rows else rows[KeyOf(q) := EntryOf(q)]
  }

  /** Only the question's own row can change, no row disappears, and a complete row is never overwritten. */
  lemma ApplyWriteFrame(rows: map<string, MasterEntry>, q: Question, writeFails: bool)
    ensures rows.Keys <= ApplyWrite(rows, q, writeFails).Keys <= rows.Keys + {KeyOf(q)}
    ensures forall k :: k in rows && k != KeyOf(q) ==> ApplyWrite(rows, q, writeFails)[k] == rows[k]
    ensures forall k :: k in rows && Complete(rows[k]) ==> ApplyWrite(rows, q, writeFails)[k] == rows[k]
    ensures Writable(q) && !writeFails ==> KeyOf(q) in ApplyWrite(rows, q, writeFails)
  {
  }

  /** Writing the same question twice leaves the table as writing it once. */
  lemma ApplyWriteIdempotent(rows: map<string, MasterEntry>, q: Question)
    ensures ApplyWrite(ApplyWrite(rows, q, false), q, false) == ApplyWrite(rows, q, false)
  {
  }

  /** The table after fetching one id and writing its question, if any. */
  function WriteOne(rows: map<string, MasterEntry>, id: string, domain: string,
                    fetch: string -> Option<JsValue>, writeFails: string -> bool): map<string, MasterEntry>
  {
    match FetchQuestionById(id, domain, fetch(id))
    case None => rows
    case Some(q) => ApplyWrite(rows, q, writeFails(id))
  }

  /** The table after fetching and writing each id in turn. */
  function WriteAll(rows: map<string, MasterEntry>, ids: seq<string>, domain: string,
                    fetch: string -> Option<JsValue>, writeFails: string -> bool): map<string, MasterEntry>
    decreases |ids|
  {
    if ids == [] then rows
    else WriteAll(WriteOne(rows, ids[0], domain, fetch, writeFails), ids[1..], domain, fetch, writeFails)
  }

  /** Writing `a + b` is writing `a`, then `b`. */
  lemma {:induction false} WriteAllAppend(rows: map<string, MasterEntry>, a: seq<string>, b: seq<string>, domain: string,
                                          fetch: string -> Option<JsValue>, writeFails: string -> bool)
    ensures WriteAll(rows, a + b, domain, fetch, writeFails)
         == WriteAll(WriteAll(rows, a, domain, fetch, writeFails), b, domain, fetch, writeFails)
    decreases |a|
  {
    if a == [] {
      assert a + b == b;
    } else {
      assert (a + b)[1..] == a[1..] + b;
      WriteAllAppend(WriteOne(rows, a[0], domain, fetch, writeFails), a[1..], b, domain, fetch, writeFails);
    }
  }

  /** A pass over any ids keeps every row and every complete row as it was. */
  lemma {:induction false} WriteAllKeepsComplete(rows: map<string, MasterEntry>, ids: seq<string>, domain: string,
                                                 fetch: string -> Option<JsValue>, writeFails: string -> bool)
    ensures rows.Keys <= WriteAll(rows, ids, domain, fetch, writeFails).Keys
    ensures forall k :: k in rows && Complete(rows[k]) ==> WriteAll(rows, ids, domain, fetch, writeFails)[k] == rows[k]
    decreases |ids|
  {
    if ids != [] {
      var next := WriteOne(rows, ids[0], domain, fetch, writeFails);
      var fetched := FetchQuestionById(ids[0], domain, fetch(ids[0]));
      if fetched.Some? {
        ApplyWriteFrame(rows, fetched.value, writeFails(ids[0]));
      }
      WriteAllKeepsComplete(next, ids[1..], domain, fetch, writeFails);
    }
  }

  function Min(a: int, b: int): int
  {
    if a <= b then a else b
  }

  /** The batches the loop of `processDomain` visits from index `i` on. */
  function BatchesFrom(ids: seq<string>, i: nat): seq<seq<string>>
    decreases |ids| - i
  {
    if i >= |ids| then [] else [ids[i..Min(i + BatchSize, |ids|)]] + BatchesFrom(ids, i + BatchSize)
  }

  function Flatten(batches: seq<seq<string>>): seq<string>
  {
    if batches == [] then [] else batches[0] + Flatten(batches[1..])
  }

  /** Batch `k` is `ids[i + 50k .. min(i + 50k + 50, n)]`, and there are ⌈(n - i) / 50⌉ of them. */
  lemma {:induction false} BatchesShape(ids: seq<string>, i: nat)
    requires i <= |ids|
    ensures |BatchesFrom(ids, i)| == (|ids| - i + BatchSize - 1) / BatchSize
    ensures forall k :: 0 <= k < |BatchesFrom(ids, i)| ==>
      i + BatchSize * k < |ids| && BatchesFrom(ids, i)[k] == ids[i + BatchSize * k..Min(i + BatchSize * k + BatchSize, |ids|)]
    decreases |ids| - i
  {
    if i < |ids| {
      var next := Min(i + BatchSize, |ids|);
      BatchesShape(ids, next);
      if i + BatchSize < |ids| {
        assert BatchesFrom(ids, i) == [ids[i..next]] + BatchesFrom(ids, i + BatchSize);
        forall k | 1 <= k < |BatchesFrom(ids, i)|
          ensures BatchesFrom(ids, i)[k] == BatchesFrom(ids, next)[k - 1]
        {
        }
      } else {
        assert BatchesFrom(ids, i + BatchSize) == [];
      }
    }
  }

  lemma FlattenCons(batch: seq<string>, rest: seq<seq<string>>)
    ensures Flatten([batch] + rest) == batch + Flatten(rest)
  {
    assert ([batch] + rest)[1..] == rest;
  }

  /** The batches cover the ids in order without overlap. */
  lemma {:induction false} BatchesCover(ids: seq<string>, i: nat)
    requires i <= |ids|
    ensures Flatten(BatchesFrom(ids, i)) == ids[i..]
    decreases |ids| - i
  {
    if i < |ids| {
      var next := Min(i + BatchSize, |ids|);
      BatchesFromStep(ids, i);
      FlattenCons(ids[i..next], BatchesFrom(ids, i + BatchSize));
      if i + BatchSize < |ids| {
        BatchesCover(ids, i + BatchSize);
      }
      SliceSplit(ids, i, next);
    }
  }

  lemma BatchesFromStep(ids: seq<string>, i: nat)
    requires i < |ids|
    ensures BatchesFrom(ids, i) == [ids[i..Min(i + BatchSize, |ids|)]] + BatchesFrom(ids, i + BatchSize)
    ensures i + BatchSize >= |ids| ==> BatchesFrom(ids, i + BatchSize) == []
  {
  }

  lemma SliceSplit(ids: seq<string>, i: nat, next: nat)
    requires i <= next <= |ids|
    ensures ids[i..] == ids[i..next] + ids[next..]
  {
  }

  /** What the loop does, in the order it does it: process a batch, or sleep. */
  datatype Step = ProcessedBatch(number: nat, batch: seq<string>) | Slept(ms: nat)

  /** The steps of the loop from index `i` on: each batch, then a pause unless it was the last. */
  function ScheduleFrom(ids: seq<string>, i: nat): seq<Step>
    decreases |ids| - i
  {
    if i >= |ids| then []
    else
      [ProcessedBatch(i / BatchSize + 1, ids[i..Min(i + BatchSize, |ids|)])]
      + (if i + BatchSize < |ids| then [Slept(BatchDelayMs)] else [])
      + ScheduleFrom(ids, i + BatchSize)
  }

  /** Taking one batch's steps off the remaining schedule leaves the schedule from the next batch. */
  lemma ScheduleStep(ids: seq<string>, i: nat, here: seq<Step>, done: seq<Step>, whole: seq<Step>)
    requires i < |ids|
    requires here == [ProcessedBatch(i / BatchSize + 1, ids[i..Min(i + BatchSize, |ids|)])]
                     + (if i + BatchSize < |ids| then [Slept(BatchDelayMs)] else [])
    requires done + ScheduleFrom(ids, i) == whole
    ensures (done + here) + ScheduleFrom(ids, i + BatchSize) == whole
  {
    assert ScheduleFrom(ids, i) == here + ScheduleFrom(ids, i + BatchSize);
  }

  /** The schedule from a batch boundary has one step per batch and one pause between each two. */
  lemma {:induction false} ScheduleLength(ids: seq<string>, i: nat)
    ensures |ScheduleFrom(ids, i)| == (if BatchesFrom(ids, i) == [] then 0 else 2 * |BatchesFrom(ids, i)| - 1)
    decreases |ids| - i
  {
    if i < |ids| {
      ScheduleLength(ids, i + BatchSize);
      if i + BatchSize >= |ids| {
        assert BatchesFrom(ids, i + BatchSize) == [];
      }
    }
  }

  /** Step 2k of the schedule is batch k, numbered from i / 50 + 1. */
  lemma {:induction false} ScheduleBatchAt(ids: seq<string>, i: nat, k: nat)
    requires i % BatchSize == 0 && k < |BatchesFrom(ids, i)|
    ensures 2 * k < |ScheduleFrom(ids, i)|
    ensures ScheduleFrom(ids, i)[2 * k] == ProcessedBatch(i / BatchSize + k + 1, BatchesFrom(ids, i)[k])
    decreases k
  {
    ScheduleLength(ids, i);
    if k > 0 {
      ScheduleBatchAt(ids, i + BatchSize, k - 1);
      assert (i + BatchSize) / BatchSize == i / BatchSize + 1;
      assert ScheduleFrom(ids, i)[2 * k] == ScheduleFrom(ids, i + BatchSize)[2 * (k - 1)];
    }
  }

  /** Step 2k + 1 is a pause whenever batch k is not the last. */
  lemma {:induction false} SchedulePauseAt(ids: seq<string>, i: nat, k: nat)
    requires k + 1 < |BatchesFrom(ids, i)|
    ensures 2 * k + 1 < |ScheduleFrom(ids, i)|
    ensures ScheduleFrom(ids, i)[2 * k + 1] == Slept(BatchDelayMs)
    decreases k
  {
    ScheduleLength(ids, i);
    assert i < |ids|;
    assert |BatchesFrom(ids, i + BatchSize)| == |BatchesFrom(ids, i)| - 1 > 0;
    assert i + BatchSize < |ids|;
    if k > 0 {
      SchedulePauseAt(ids, i + BatchSize, k - 1);
      assert ScheduleFrom(ids, i)[2 * k + 1] == ScheduleFrom(ids, i + BatchSize)[2 * (k - 1) + 1];
    }
  }

  /**
   * Batches and pauses alternate: step 2k is batch k, step 2k + 1 is a
   * pause, and the last step is a batch, so no pause follows the last one.
   */
  lemma ScheduleAlternates(ids: seq<string>)
    ensures var b := BatchesFrom(ids, 0);
      var s := ScheduleFrom(ids, 0);
      && |s| == (if b == [] then 0 else 2 * |b| - 1)
      && (forall k :: 0 <= k < |b| ==> s[2 * k] == ProcessedBatch(k + 1, b[k]))
      && (forall k :: 0 <= k < |b| - 1 ==> s[2 * k + 1] == Slept(BatchDelayMs))
  {
    ScheduleLength(ids, 0);
    forall k | 0 <= k < |BatchesFrom(ids, 0)|
      ensures ScheduleFrom(ids, 0)[2 * k] == ProcessedBatch(k + 1, BatchesFrom(ids, 0)[k])
    {
      ScheduleBatchAt(ids, 0, k);
    }
    forall k | 0 <= k < |BatchesFrom(ids, 0)| - 1
      ensures ScheduleFrom(ids, 0)[2 * k + 1] == Slept(BatchDelayMs)
    {
      SchedulePauseAt(ids, 0, k);
    }
  }

  /** `questions_master`. */
  class MasterTable {
    var rows: map<string, MasterEntry>

    constructor(rows0: map<string, MasterEntry>)
      ensures rows == rows0
    {
      rows := rows0;
    }

    /**
     * `insertOrUpdateQuestion`: read the row for the question's id, then
     * skip, update or insert as `Decide` says.
     */
    method InsertOrUpdateQuestion(q: Question, writeFails: bool) returns (action: Action)
      modifies this
      ensures action == Decide(q, Lookup(old(rows), KeyOf(q)))
      ensures rows == ApplyWrite(old(rows), q, writeFails)
    {
      if !Writable(q) {
        return NoWrite;
      }
      var key := KeyOf(q);
      if key in rows {
        if Complete(rows[key]) {
          return Skip;
        }
        if !writeFails {
          rows := rows[key := EntryOf(q)];
        }
        return Update;
      }
      if !writeFails {
        rows := rows[key := EntryOf(q)];
      }
      return Insert;
    }
  }

  /** One batch of the loop: each id fetched and its question written, in order. */
  method WriteBatch(master: MasterTable, batch: seq<string>, domain: string,
                    fetch: string -> Option<JsValue>, writeFails: string -> bool)
    modifies master
    ensures master.rows == WriteAll(old(master.rows), batch, domain, fetch, writeFails)
  {
    var j := 0;
    while j < |batch|
      invariant 0 <= j <= |batch|
      invariant WriteAll(master.rows, batch[j..], domain, fetch, writeFails) == WriteAll(old(master.rows), batch, domain, fetch, writeFails)
    {
      var id := batch[j];
      assert batch[j..][1..] == batch[j + 1..];
      var question := FetchQuestionById(id, domain, fetch(id));
      if question.Some? {
        var _ := master.InsertOrUpdateQuestion(question.value, writeFails(id));
      }
      j := j + 1;
    }
  }

  /** One pass of the batch loop: the batch starting at `i` is written, then the loop pauses unless it was the last. */
  method ProcessBatchAt(master: MasterTable, ids: seq<string>, i: nat, domain: string,
                        fetch: string -> Option<JsValue>, writeFails: string -> bool)
    returns (here: seq<Step>)
    requires i < |ids|
    modifies master
    ensures master.rows == WriteAll(old(master.rows), ids[i..Min(i + BatchSize, |ids|)], domain, fetch, writeFails)
    ensures here == [ProcessedBatch(i / BatchSize + 1, ids[i..Min(i + BatchSize, |ids|)])]
                    + (if i + BatchSize < |ids| then [Slept(BatchDelayMs)] else [])
  {
    var batch := ids[i..Min(i + BatchSize, |ids|)];
    WriteBatch(master, batch, domain, fetch, writeFails);
    here := [ProcessedBatch(i / BatchSize + 1, batch)];
    if i + BatchSize < |ids| {
      here := here + [Slept(BatchDelayMs)];
    }
  }

  /** Writing the ids before a batch and then the batch writes the ids up to the batch's end. */
  lemma WritePrefixStep(rows: map<string, MasterEntry>, ids: seq<string>, i: nat, domain: string,
                        fetch: string -> Option<JsValue>, writeFails: string -> bool)
    requires i < |ids|
    ensures WriteAll(WriteAll(rows, ids[..i], domain, fetch, writeFails), ids[i..Min(i + BatchSize, |ids|)], domain, fetch, writeFails)
      == WriteAll(rows, ids[..Min(i + BatchSize, |ids|)], domain, fetch, writeFails)
  {
    var end := Min(i + BatchSize, |ids|);
    assert ids[..end] == ids[..i] + ids[i..end];
    WriteAllAppend(rows, ids[..i], ids[i..end], domain, fetch, writeFails);
  }

  /**
   * `processDomain`: the id list (empty when its request fails) is walked in
   * batches of fifty; every id whose question could be fetched is written,
   * and the loop pauses between batches.
   */
  method ProcessDomain(master: MasterTable, domain: string, idsResponse: Option<seq<string>>,
                       fetch: string -> Option<JsValue>, writeFails: string -> bool)
    returns (steps: seq<Step>)
    modifies master
    ensures var ids := if idsResponse.Some? then idsResponse.value else [];
      && master.rows == WriteAll(old(master.rows), ids, domain, fetch, writeFails)
      && steps == ScheduleFrom(ids, 0)
  {
    var ids := if idsResponse.Some? then idsResponse.value else [];
    ghost var rows0 := master.rows;
    steps := [];
    var i := 0;
    while i < |ids|
      invariant Walked(rows0, master.rows, ids, i, steps, domain, fetch, writeFails)
      decreases |ids| - i
    {
      ghost var rows := master.rows;
      var here := ProcessBatchAt(master, ids, i, domain, fetch, writeFails);
      WalkedStep(rows0, rows, ids, i, steps, here, domain, fetch, writeFails);
      steps := steps + here;
      i := i + BatchSize;
    }
    WalkedAll(rows0, master.rows, ids, i, steps, domain, fetch, writeFails);
  }

  /** The loop of `processDomain` after the batches before i: their ids written, their steps taken. */
  ghost predicate Walked(rows0: map<string, MasterEntry>, rows: map<string, MasterEntry>, ids: seq<string>, i: nat,
                         steps: seq<Step>, domain: string, fetch: string -> Option<JsValue>, writeFails: string -> bool)
  {
    && rows == WriteAll(rows0, ids[..Min(i, |ids|)], domain, fetch, writeFails)
    && steps + ScheduleFrom(ids, i) == ScheduleFrom(ids, 0)
  }

  /** One batch moves the loop from one boundary to the next. */
  lemma WalkedStep(rows0: map<string, MasterEntry>, rows: map<string, MasterEntry>, ids: seq<string>, i: nat,
                   steps: seq<Step>, here: seq<Step>, domain: string, fetch: string -> Option<JsValue>,
                   writeFails: string -> bool)
    requires i < |ids| && Walked(rows0, rows, ids, i, steps, domain, fetch, writeFails)
    requires here == [ProcessedBatch(i / BatchSize + 1, ids[i..Min(i + BatchSize, |ids|)])]
                     + (if i + BatchSize < |ids| then [Slept(BatchDelayMs)] else [])
    ensures Walked(rows0, WriteAll(rows, ids[i..Min(i + BatchSize, |ids|)], domain, fetch, writeFails),
                   ids, i + BatchSize, steps + here, domain, fetch, writeFails)
  {
    assert Min(i, |ids|) == i;
    assert Min(i + BatchSize, |ids|) == Min(Min(i + BatchSize, |ids|), |ids|);
    WritePrefixStep(rows0, ids, i, domain, fetch, writeFails);
    ScheduleStep(ids, i, here, steps, ScheduleFrom(ids, 0));
  }

  /** Past the last boundary every id is written and the whole schedule taken. */
  lemma WalkedAll(rows0: map<string, MasterEntry>, rows: map<string, MasterEntry>, ids: seq<string>, i: nat,
                  steps: seq<Step>, domain: string, fetch: string -> Option<JsValue>, writeFails: string -> bool)
    requires i >= |ids| && Walked(rows0, rows, ids, i, steps, domain, fetch, writeFails)
    ensures rows == WriteAll(rows0, ids, domain, fetch, writeFails)
    ensures steps == ScheduleFrom(ids, 0)
  {
    assert ids[..Min(i, |ids|)] == ids;
  }
}
