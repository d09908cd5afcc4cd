/**
 * Start-up recovery of unfinished background tasks. From the snapshot of
 * pending and processing task records the service counts the records the
 * generic task queue manages and the "storage_sync" records, dispatches one
 * sync job per "storage_sync" record in list order, and starts the queue
 * once if it has any work.
 *
 * The jobs themselves are not modelled: a run of recovery is the trace of
 * actions it launches.
 */
module TaskRecovery {
  import opened Wrappers

  const StorageSync: string := "storage_sync"

  /** A row of the task ledger as recovery reads it. */
  datatype TaskRecord = TaskRecord(id: string, taskType: string)

  /** An action recovery launches. */
  datatype Action =
    | DispatchSync(taskId: string)   // `_process_sync_task(id)` of the sync service
    | StartQueue                     // `start_processing()` of the generic queue

  /** `sum(1 for t in tasks if keep(t))`. */
  function Count(tasks: seq<TaskRecord>, keep: TaskRecord -> bool): (n: nat)
    ensures n <= |tasks|
    ensures n > 0 <==> exists i | 0 <= i < |tasks| :: keep(tasks[i])
    decreases |tasks|
  {
    if |tasks| == 0 then 0
    else (if keep(tasks[0]) then 1 else 0) + Count(tasks[1..], keep)
  }

  /** `analysis_count`: the records whose type the generic queue manages. */
  function AnalysisCount(tasks: seq<TaskRecord>, queueTypes: set<string>): nat {
    Count(tasks, (t: TaskRecord) => t.taskType in queueTypes)
  }

  /** `sync_count`: the "storage_sync" records. */
  function SyncCount(tasks: seq<TaskRecord>): nat {
    Count(tasks, (t: TaskRecord) => t.taskType == StorageSync)
  }

  /** The loop over the records: one sync dispatch per "storage_sync" record. */
  function SyncDispatches(tasks: seq<TaskRecord>): (r: seq<Action>)
    ensures forall k | 0 <= k < |r| :: r[k].DispatchSync?
    decreases |tasks|
  {
    if |tasks| == 0 then []
    else
      (if tasks[0].taskType == StorageSync then [DispatchSync(tasks[0].id)] else [])
      + SyncDispatches(tasks[1..])
  }

  /**
   * The recovery block of the start-up sequence, given the unfinished records
   * (`None` when reading the ledger raised; the error is logged and nothing
   * is launched).
   */
  function Recover(snapshot: Option<seq<TaskRecord>>, queueTypes: set<string>): (r: seq<Action>)
    ensures snapshot.None? ==> r == []
    ensures forall k | 0 <= k < |r| - 1 :: r[k].DispatchSync?
  {
    match snapshot
    case None => []
    case Some(tasks) =>
      if |tasks| == 0 then []
      else SyncDispatches(tasks) + (if AnalysisCount(tasks, queueTypes) > 0 then [StartQueue] else [])
  }

  /** The number of times `a` occurs in `trace`. */
  function Occurrences(trace: seq<Action>, a: Action): nat {
    multiset(trace)[a]
  }

  /** The sync dispatches count the "storage_sync" records, one each. */
  lemma {:induction false} DispatchCountIsSyncCount(tasks: seq<TaskRecord>)
    ensures |SyncDispatches(tasks)| == SyncCount(tasks)
    decreases |tasks|
  {
    if |tasks| > 0 {
      DispatchCountIsSyncCount(tasks[1..]);
    }
  }

  /**
   * Each record id is dispatched once per "storage_sync" record carrying it:
   * no deduplication, and no dispatch for a record of another type.
   */
  lemma {:induction false} DispatchesPerId(tasks: seq<TaskRecord>, id: string)
    ensures Occurrences(SyncDispatches(tasks), DispatchSync(id)) == Count(tasks, (t: TaskRecord) => t == TaskRecord(id, StorageSync))
    decreases |tasks|
  {
    if |tasks| > 0 {
      DispatchesPerId(tasks[1..], id);
      var head := if tasks[0].taskType == StorageSync then [DispatchSync(tasks[0].id)] else [];
      assert multiset(head + SyncDispatches(tasks[1..])) == multiset(head) + multiset(SyncDispatches(tasks[1..]));
    }
  }

  /** Dispatches follow list order: a record appended at the end is dispatched after all others. */
  lemma {:induction false} DispatchesInListOrder(tasks: seq<TaskRecord>, t: TaskRecord)
    ensures SyncDispatches(tasks + [t]) ==
            SyncDispatches(tasks) + (if t.taskType == StorageSync then [DispatchSync(t.id)] else [])
    decreases |tasks|
  {
    if |tasks| == 0 {
      assert tasks + [t] == [t];
    } else {
      assert (tasks + [t])[1..] == tasks[1..] + [t];
      DispatchesInListOrder(tasks[1..], t);
    }
  }

  /**
   * The queue is started exactly once when some record has a queue-managed
   * type, and never otherwise, however many such records there are.
   */
  lemma QueueStartedExactlyOnce(tasks: seq<TaskRecord>, queueTypes: set<string>)
    ensures Occurrences(Recover(Some(tasks), queueTypes), StartQueue) ==
            if exists i | 0 <= i < |tasks| :: tasks[i].taskType in queueTypes then 1 else 0
  {
    var d := SyncDispatches(tasks);
    assert StartQueue !in multiset(d);
    if |tasks| > 0 {
      var tail := if AnalysisCount(tasks, queueTypes) > 0 then [StartQueue] else [];
      assert multiset(d + tail) == multiset(d) + multiset(tail);
    }
  }

  /**
   * In the whole recovery trace, each id is dispatched once per
   * "storage_sync" record carrying it; the queue start adds no dispatch.
   */
  lemma RecoverDispatchesPerId(tasks: seq<TaskRecord>, queueTypes: set<string>, id: string)
    ensures Occurrences(Recover(Some(tasks), queueTypes), DispatchSync(id)) ==
            Count(tasks, (t: TaskRecord) => t == TaskRecord(id, StorageSync))
  {
    DispatchesPerId(tasks, id);
    if |tasks| > 0 {
      var d := SyncDispatches(tasks);
      var tail := if AnalysisCount(tasks, queueTypes) > 0 then [StartQueue] else [];
      assert multiset(d + tail) == multiset(d) + multiset(tail);
    }
  }

  /** A record whose type is neither "storage_sync" nor queue-managed changes nothing. */
  lemma {:induction false} OtherTypesIgnored(before: seq<TaskRecord>, t: TaskRecord, after: seq<TaskRecord>, queueTypes: set<string>)
    requires t.taskType != StorageSync && t.taskType !in queueTypes
    ensures Recover(Some(before + [t] + after), queueTypes) == Recover(Some(before + after), queueTypes)
  {
    OtherTypesIgnoredByDispatch(before, t, after);
    var all := before + [t] + after;
    var rest := before + after;
    assert (exists i | 0 <= i < |all| :: all[i].taskType in queueTypes)
       <==> (exists i | 0 <= i < |rest| :: rest[i].taskType in queueTypes) by {
      forall i | 0 <= i < |all| && all[i].taskType in queueTypes
        ensures exists j | 0 <= j < |rest| :: rest[j].taskType in queueTypes
      {
        if i < |before| {
          assert rest[i] == all[i];
        } else {
          assert i > |before|;
          assert rest[i - 1] == all[i];
        }
      }
      forall j | 0 <= j < |rest| && rest[j].taskType in queueTypes
        ensures exists i | 0 <= i < |all| :: all[i].taskType in queueTypes
      {
        if j < |before| {
          assert all[j] == rest[j];
        } else {
          assert all[j + 1] == rest[j];
        }
      }
    }
  }

  lemma {:induction false} OtherTypesIgnoredByDispatch(before: seq<TaskRecord>, t: TaskRecord, after: seq<TaskRecord>)
    requires t.taskType != StorageSync
    ensures SyncDispatches(before + [t] + after) == SyncDispatches(before + after)
    decreases |before|
  {
    if |before| == 0 {
      assert before + [t] + after == [t] + after;
      assert ([t] + after)[1..] == after;
      assert before + after == after;
    } else {
      assert (before + [t] + after)[1..] == before[1..] + [t] + after;
      assert (before + after)[1..] == before[1..] + after;
      OtherTypesIgnoredByDispatch(before[1..], t, after);
    }
  }

  /** A failed ledger read or an empty ledger launches nothing. */
  lemma NothingToRecover(queueTypes: set<string>)
    ensures Recover(None, queueTypes) == []
    ensures Recover(Some([]), queueTypes) == []
  {
  }

  /** One "storage_sync" record with id 7 is dispatched exactly once, and the queue is not started. */
  lemma SingleSyncRecord()
    ensures Recover(Some([TaskRecord("7", StorageSync)]), {"analyze_image", "rebuild_vector"}) == [DispatchSync("7")]
  {
    var tasks := [TaskRecord("7", StorageSync)];
    assert tasks[1..] == [];
    assert SyncDispatches(tasks) == [DispatchSync("7")];
    assert StorageSync != "analyze_image" && StorageSync != "rebuild_vector";
    assert AnalysisCount(tasks, {"analyze_image", "rebuild_vector"}) == 0;
  }
}
